/**
 * Character and string helpers with Python's meaning: `str.isdigit` and `\d`
 * on ASCII digits, `str.lower` on ASCII letters, `str.strip` with Python's
 * whitespace set, `startswith`, `endswith`, the substring test `t in s`, `int(t)`
 * on a run of digits and the format `{i:03d}`.
 */
module Strings {

  predicate IsDigit(c: char) { '0' <= c <= '9' }

  predicate AllDigits(s: string) { forall i :: 0 <= i < |s| ==> IsDigit(s[i]) }

  predicate NoDigits(s: string) { forall i :: 0 <= i < |s| ==> !IsDigit(s[i]) }

  function LowerChar(c: char): char {
    if 'A' <= c <= 'Z' then (c as int + 32) as char else c
  }

  function Lower(s: string): string {
    seq(|s|, i requires 0 <= i < |s| => LowerChar(s[i]))
  }

  /**
   * Lowering keeps the length, turns each ASCII capital into its small letter
   * and leaves every other character (digits included) as it is, so nothing
   * upper-case remains and lowering again changes nothing.
   */
  lemma LowerSpec(s: string)
    ensures |Lower(s)| == |s|
    ensures forall i :: 0 <= i < |s| && 'A' <= s[i] <= 'Z' ==> Lower(s)[i] as int == s[i] as int - 'A' as int + 'a' as int
    ensures forall i :: 0 <= i < |s| && !('A' <= s[i] <= 'Z') ==> Lower(s)[i] == s[i]
    ensures forall i :: 0 <= i < |s| ==> !('A' <= Lower(s)[i] <= 'Z')
    ensures forall i :: 0 <= i < |s| ==> (IsDigit(Lower(s)[i]) <==> IsDigit(s[i]))
    ensures Lower(Lower(s)) == Lower(s)
  {
  }

  /**
   * Python's `str.isspace` (what `strip()` drops): the ASCII controls
   * '\t' to '\r' and '\x1c' to '\x1f', the space, and the Unicode spaces
   * and separators U+0085, U+00A0, U+1680, U+2000 to U+200A, U+2028, U+2029,
   * U+202F, U+205F and U+3000.
   */
  predicate IsSpace(c: char) {
    || '\t' <= c <= '\r'
    || '\U{1C}' <= c <= ' '
    || c == '\U{85}' || c == '\U{A0}' || c == '\U{1680}'
    || '\U{2000}' <= c <= '\U{200A}'
    || c == '\U{2028}' || c == '\U{2029}' || c == '\U{202F}' || c == '\U{205F}' || c == '\U{3000}'
  }

  /** `s.lstrip()`: drops every leading whitespace character. */
  function StripLeft(s: string): string {
    if s != [] && IsSpace(s[0]) then StripLeft(s[1..]) else s
  }

  /** Where `s[..j]` ends once its trailing whitespace is dropped. */
  function TrimmedEnd(s: string, j: nat): (k: nat)
    requires j <= |s|
    ensures k <= j
  {
    if j > 0 && IsSpace(s[j - 1]) then TrimmedEnd(s, j - 1) else j
  }

  /** `s.rstrip()`: drops every trailing whitespace character. */
  function StripRight(s: string): string {
    s[..TrimmedEnd(s, |s|)]
  }

  /** What `lstrip` leaves is a suffix, after a dropped all-whitespace prefix, that does not start with whitespace. */
  lemma {:induction false} StripLeftSpec(s: string)
    ensures |StripLeft(s)| <= |s| && StripLeft(s) == s[|s| - |StripLeft(s)|..]
    ensures forall i :: 0 <= i < |s| - |StripLeft(s)| ==> IsSpace(s[i])
    ensures StripLeft(s) == [] || !IsSpace(StripLeft(s)[0])
  {
    if s != [] && IsSpace(s[0]) {
      StripLeftSpec(s[1..]);
      forall i | 0 < i < |s| - |StripLeft(s)| ensures IsSpace(s[i]) {
        assert s[i] == s[1..][i - 1];
      }
    }
  }

  /** What `rstrip` leaves is a prefix, before a dropped all-whitespace suffix, that does not end with whitespace. */
  lemma {:induction false} TrimmedEndSpec(s: string, j: nat)
    requires j <= |s|
    ensures forall i :: TrimmedEnd(s, j) <= i < j ==> IsSpace(s[i])
    ensures TrimmedEnd(s, j) == 0 || !IsSpace(s[TrimmedEnd(s, j) - 1])
  {
    if j > 0 && IsSpace(s[j - 1]) {
      TrimmedEndSpec(s, j - 1);
    }
  }

  lemma StripRightSpec(s: string)
    ensures |StripRight(s)| <= |s| && StripRight(s) == s[..|StripRight(s)|]
    ensures forall i :: |StripRight(s)| <= i < |s| ==> IsSpace(s[i])
    ensures StripRight(s) == [] || !IsSpace(StripRight(s)[|StripRight(s)| - 1])
  {
    var k := TrimmedEnd(s, |s|);
    TrimmedEndSpec(s, |s|);
    if k > 0 {
      assert StripRight(s)[k - 1] == s[k - 1];
    }
  }

  /** `s.strip()`. */
  function Strip(s: string): string {
    StripRight(StripLeft(s))
  }

  /** The stripped text is the slice between a dropped all-whitespace prefix and a dropped all-whitespace suffix. */
  lemma StripSlice(s: string)
    ensures |StripLeft(s)| <= |s| && |s| - |StripLeft(s)| + |Strip(s)| <= |s|
    ensures Strip(s) == s[|s| - |StripLeft(s)|..|s| - |StripLeft(s)| + |Strip(s)|]
    ensures forall i :: 0 <= i < |s| - |StripLeft(s)| ==> IsSpace(s[i])
    ensures forall i :: |s| - |StripLeft(s)| + |Strip(s)| <= i < |s| ==> IsSpace(s[i])
  {
    var l := StripLeft(s);
    StripLeftSpec(s);
    var k := |s| - |l|;
    var r := StripRight(l);
    StripRightSpec(l);
    assert l == s[k..];
    forall i | k + |r| <= i < |s| ensures IsSpace(s[i]) {
      assert s[i] == l[i - k];
    }
  }

  /** Stripping leaves nothing exactly when every character is whitespace. */
  lemma StripEmpty(s: string)
    ensures Strip(s) == [] <==> forall i :: 0 <= i < |s| ==> IsSpace(s[i])
  {
    var l := StripLeft(s);
    StripLeftSpec(s);
    var k := |s| - |l|;
    if Strip(s) == [] {
      assert l == [] by { StripRightSpec(l); }
    } else {
      assert l != [] && !IsSpace(l[0]);
      assert s[k] == l[0];
    }
  }

  /** What stripping leaves starts and ends with a non-whitespace character. */
  lemma StripEnds(s: string)
    ensures Strip(s) != [] ==> !IsSpace(Strip(s)[0]) && !IsSpace(Strip(s)[|Strip(s)| - 1])
  {
    var l := StripLeft(s);
    var r := StripRight(l);
    StripRightSpec(l);
    if r != [] {
      StripLeftSpec(s);
      assert r[0] == l[0];
    }
  }

  /**
   * Stripping leaves nothing exactly when every character is whitespace;
   * otherwise it leaves a contiguous piece of the input that starts and ends
   * with a non-whitespace character, between a dropped all-whitespace
   * prefix and a dropped all-whitespace suffix.
   */
  lemma StripSpec(s: string)
    ensures Strip(s) == [] <==> forall i :: 0 <= i < |s| ==> IsSpace(s[i])
    ensures Strip(s) != [] ==> !IsSpace(Strip(s)[0]) && !IsSpace(Strip(s)[|Strip(s)| - 1])
    ensures |StripLeft(s)| <= |s| && |s| - |StripLeft(s)| + |Strip(s)| <= |s|
    ensures Strip(s) == s[|s| - |StripLeft(s)|..|s| - |StripLeft(s)| + |Strip(s)|]
    ensures forall i :: 0 <= i < |s| - |StripLeft(s)| ==> IsSpace(s[i])
    ensures forall i :: |s| - |StripLeft(s)| + |Strip(s)| <= i < |s| ==> IsSpace(s[i])
  {
    StripEmpty(s);
    StripEnds(s);
    StripSlice(s);
  }

  /** Stripping twice is stripping once. */
  lemma StripIdempotent(s: string)
    ensures Strip(Strip(s)) == Strip(s)
  {
    var r := Strip(s);
    StripSpec(s);
    assert StripLeft(r) == r;
  }

  predicate StartsWith(s: string, prefix: string) {
    |prefix| <= |s| && s[..|prefix|] == prefix
  }

  predicate EndsWith(s: string, suffix: string) {
    |suffix| <= |s| && s[|s| - |suffix|..] == suffix
  }

  /** Python's `t in s` on strings. */
  predicate Contains(s: string, t: string)
    decreases |s|
  {
    StartsWith(s, t) || (s != [] && Contains(s[1..], t))
  }

  /** `t` occurs in `s` at position `k`. */
  predicate OccursAt(s: string, t: string, k: nat) {
    k + |t| <= |s| && s[k..k + |t|] == t
  }

  /** The substring test holds exactly when `t` occurs at some position of `s`. */
  lemma {:induction false} ContainsSpec(s: string, t: string)
    ensures Contains(s, t) <==> exists k: nat :: OccursAt(s, t, k)
    decreases |s|
  {
    if Contains(s, t) {
      if StartsWith(s, t) {
        assert OccursAt(s, t, 0);
      } else {
        ContainsSpec(s[1..], t);
        var k: nat :| OccursAt(s[1..], t, k);
        assert s[k + 1..k + 1 + |t|] == s[1..][k..k + |t|];
        assert OccursAt(s, t, k + 1);
      }
    }
    if exists k: nat :: OccursAt(s, t, k) {
      var k: nat :| OccursAt(s, t, k);
      if k > 0 {
        assert s[1..][k - 1..k - 1 + |t|] == s[k..k + |t|];
        assert OccursAt(s[1..], t, k - 1);
        ContainsSpec(s[1..], t);
      }
    }
  }

  function DigitValue(c: char): nat
    requires IsDigit(c)
  {
    c as int - '0' as int
  }

  function DigitChar(d: nat): (c: char)
    requires d < 10
    ensures IsDigit(c) && DigitValue(c) == d
  {
    ('0' as int + d) as char
  }

  function Pow10(k: nat): (p: nat)
    ensures p >= 1
  {
    if k == 0 then 1 else 10 * Pow10(k - 1)
  }

  /** `int(t)` for a string of decimal digits (leading zeros allowed): below ten to the number of digits. */
  function DigitsValue(s: string): (v: nat)
    requires AllDigits(s)
    ensures v < Pow10(|s|)
    decreases |s|
  {
    if s == [] then 0 else 10 * DigitsValue(s[..|s| - 1]) + DigitValue(s[|s| - 1])
  }

  /** The shortest decimal numeral of `n`: a leading zero only for zero itself. */
  function Decimal(n: nat): (r: string)
    ensures |r| >= 1 && AllDigits(r)
    ensures n > 0 ==> r[0] != '0'
  {
    if n < 10 then [DigitChar(n)] else Decimal(n / 10) + [DigitChar(n % 10)]
  }

  lemma {:induction false} DecimalValue(n: nat)
    ensures DigitsValue(Decimal(n)) == n
  {
    if n >= 10 {
      var r := Decimal(n);
      assert r[..|r| - 1] == Decimal(n / 10);
      DecimalValue(n / 10);
    }
  }

  /** A number below ten to the `k` (for `k` at least one) has at most `k` digits. */
  lemma {:induction false} DecimalLength(n: nat, k: nat)
    requires k >= 1 && n < Pow10(k)
    ensures |Decimal(n)| <= k
  {
    if n >= 10 {
      assert Pow10(k) == 10 * Pow10(k - 1);
      assert k >= 2;
      DecimalLength(n / 10, k - 1);
    }
  }

  function Zeros(k: nat): (r: string)
    ensures |r| == k && AllDigits(r)
  {
    seq(k, _ => '0')
  }

  lemma {:induction false} ZerosPrefixValue(k: nat, d: string)
    requires AllDigits(d)
    ensures AllDigits(Zeros(k) + d) && DigitsValue(Zeros(k) + d) == DigitsValue(d)
    decreases |d|, k
  {
    var z := Zeros(k) + d;
    if d == [] {
      assert z == Zeros(k);
      if k > 0 {
        assert z[..|z| - 1] == Zeros(k - 1);
        ZerosPrefixValue(k - 1, []);
        assert Zeros(k - 1) + [] == Zeros(k - 1);
      }
    } else {
      var d' := d[..|d| - 1];
      assert z[..|z| - 1] == Zeros(k) + d';
      ZerosPrefixValue(k, d');
    }
  }

  /** `f"{n:03d}"`: the decimal numeral of `n`, left-padded with zeros to width three. */
  function ZeroPad3(n: nat): (r: string)
    ensures AllDigits(r) && |r| >= 3
    ensures DigitsValue(r) == n
    ensures n < 1000 ==> |r| == 3
    ensures |r| > 3 ==> r[0] != '0'
  {
    var d := Decimal(n);
    DecimalValue(n);
    assert n < 1000 ==> |d| <= 3 by {
      if n < 1000 { DecimalLength(n, 3); }
    }
    if |d| < 3 then ZerosPrefixValue(3 - |d|, d); Zeros(3 - |d|) + d else d
  }

  lemma ZeroPad3Injective(i: nat, j: nat)
    requires ZeroPad3(i) == ZeroPad3(j)
    ensures i == j
  {
  }
}
