/**
 * The parts of Python's `str` behaviour that the script relies on:
 * `str.split()` with no separator, `str.replace` of one character by
 * another, and the decimal rendering of a non-negative `int` in an f-string.
 */
module Text {

  /** The characters Python's `str.isspace()` accepts, which are exactly the
      separators of `str.split()` without arguments. */
  predicate IsSpace(c: char) {
    || c == ' '
    || ('\t' <= c <= '\r')
    || ('\U{1C}' <= c <= '\U{1F}')
    || c == '\U{85}'
    || c == '\U{A0}'
    || c == '\U{1680}'
    || ('\U{2000}' <= c <= '\U{200A}')
    || c == '\U{2028}'
    || c == '\U{2029}'
    || c == '\U{202F}'
    || c == '\U{205F}'
    || c == '\U{3000}'
  }

  predicate AllSpace(s: string) {
    forall i :: 0 <= i < |s| ==> IsSpace(s[i])
  }

  predicate NoSpace(s: string) {
    forall i :: 0 <= i < |s| ==> !IsSpace(s[i])
  }

  /** The first index at or after `i` whose character is not whitespace, or
      `|s|` when there is none. */
  function SkipSpace(s: string, i: nat): (k: nat)
    requires i <= |s|
    ensures i <= k <= |s|
    ensures k == |s| || !IsSpace(s[k])
    decreases |s| - i
  {
    if i == |s| || !IsSpace(s[i]) then i else SkipSpace(s, i + 1)
  }

  /** The first index at or after `i` whose character is whitespace, or
      `|s|` when there is none. */
  function SkipWord(s: string, i: nat): (k: nat)
    requires i <= |s|
    ensures i <= k <= |s|
    ensures k == |s| || IsSpace(s[k])
    ensures i < |s| && !IsSpace(s[i]) ==> i < k
    decreases |s| - i
  {
    if i == |s| || IsSpace(s[i]) then i else SkipWord(s, i + 1)
  }

  /** Everything `SkipSpace` passes over is whitespace. */
  lemma {:induction false} SkipSpaceSkipsSpace(s: string, i: nat)
    requires i <= |s|
    ensures forall m :: i <= m < SkipSpace(s, i) ==> IsSpace(s[m])
    decreases |s| - i
  {
    if i < |s| && IsSpace(s[i]) {
      SkipSpaceSkipsSpace(s, i + 1);
    }
  }

  /** Everything `SkipWord` passes over is not whitespace. */
  lemma {:induction false} SkipWordSkipsWord(s: string, i: nat)
    requires i <= |s|
    ensures forall m :: i <= m < SkipWord(s, i) ==> !IsSpace(s[m])
    decreases |s| - i
  {
    if i < |s| && !IsSpace(s[i]) {
      SkipWordSkipsWord(s, i + 1);
    }
  }

  /** A run of whitespace from `i` to `k` that is not followed by more
      whitespace is exactly what `SkipSpace` passes over. */
  lemma {:induction false} SkipSpaceTo(s: string, i: nat, k: nat)
    requires i <= k <= |s|
    requires forall m :: i <= m < k ==> IsSpace(s[m])
    requires k == |s| || !IsSpace(s[k])
    ensures SkipSpace(s, i) == k
    decreases k - i
  {
    if i < k {
      SkipSpaceTo(s, i + 1, k);
    }
  }

  /** A run of non-whitespace from `i` to `k` that ends the string or is
      followed by whitespace is exactly what `SkipWord` passes over. */
  lemma {:induction false} SkipWordTo(s: string, i: nat, k: nat)
    requires i <= k <= |s|
    requires forall m :: i <= m < k ==> !IsSpace(s[m])
    requires k == |s| || IsSpace(s[k])
    ensures SkipWord(s, i) == k
    decreases k - i
  {
    if i < k {
      SkipWordTo(s, i + 1, k);
    }
  }

  /** The tokens of `s.split()` that start at or after index `i`. */
  function SplitFrom(s: string, i: nat): seq<string>
    requires i <= |s|
    decreases |s| - i
  {
    var a := SkipSpace(s, i);
    if a == |s| then []
    else
      var b := SkipWord(s, a);
      [s[a..b]] + SplitFrom(s, b)
  }

  /** Python's `s.split()`: the maximal runs of non-whitespace characters,
      from left to right. */
  function Split(s: string): seq<string> {
    SplitFrom(s, 0)
  }

  /** Every token `SplitFrom` finds is non-empty and holds no whitespace. */
  lemma {:induction false} SplitFromTokens(s: string, i: nat)
    requires i <= |s|
    ensures forall tok :: tok in SplitFrom(s, i) ==> tok != [] && NoSpace(tok)
    decreases |s| - i
  {
    var a := SkipSpace(s, i);
    if a < |s| {
      var b := SkipWord(s, a);
      SkipWordSkipsWord(s, a);
      SplitFromTokens(s, b);
      var tok := s[a..b];
      assert NoSpace(tok) by {
        forall m | 0 <= m < |tok| ensures !IsSpace(tok[m]) {
          assert tok[m] == s[a + m];
        }
      }
      assert SplitFrom(s, i) == [tok] + SplitFrom(s, b);
    }
  }

  /** Every token of `s.split()` is non-empty and holds no whitespace. */
  lemma SplitTokens(s: string)
    ensures forall tok :: tok in Split(s) ==> tok != [] && NoSpace(tok)
  {
    SplitFromTokens(s, 0);
  }

  /** `s.split()` finds no token exactly when `s` is all whitespace. */
  lemma SplitEmpty(s: string)
    ensures Split(s) == [] <==> AllSpace(s)
  {
    SkipSpaceSkipsSpace(s, 0);
    var a := SkipSpace(s, 0);
    if a < |s| {
      assert !IsSpace(s[a]);
    }
  }

  /** Whatever way `s` reads as whitespace `s[..i]`, then a run `s[i..j]` of
      non-whitespace that ends the string or is followed by whitespace,
      that run is the first token of `s.split()`. */
  lemma SplitFirst(s: string, i: nat, j: nat)
    requires i < j <= |s|
    requires AllSpace(s[..i])
    requires NoSpace(s[i..j])
    requires j == |s| || IsSpace(s[j])
    ensures Split(s) != [] && Split(s)[0] == s[i..j]
  {
    assert forall m :: 0 <= m < i ==> IsSpace(s[m]) by {
      forall m | 0 <= m < i ensures IsSpace(s[m]) { assert s[m] == s[..i][m]; }
    }
    assert forall m :: i <= m < j ==> !IsSpace(s[m]) by {
      forall m | i <= m < j ensures !IsSpace(s[m]) { assert s[m] == s[i..j][m - i]; }
    }
    SkipSpaceTo(s, 0, i);
    SkipWordTo(s, i, j);
  }

  /** A non-empty string without whitespace splits into itself alone. */
  lemma SplitSingleToken(t: string)
    requires t != [] && NoSpace(t)
    ensures Split(t) == [t]
  {
    assert t[..0] == [] && t[0..|t|] == t;
    SplitFirst(t, 0, |t|);
    assert SplitFrom(t, |t|) == [];
  }

  /** Python's `s.replace(c, d)` for single characters `c` and `d`: every
      occurrence of `c` becomes `d`, and nothing else changes. */
  function Replace(s: string, c: char, d: char): (r: string)
    ensures |r| == |s|
    ensures forall i :: 0 <= i < |s| ==> r[i] == if s[i] == c then d else s[i]
  {
    if s == [] then [] else [if s[0] == c then d else s[0]] + Replace(s[1..], c, d)
  }

  /** After replacing `c` by a different `d`, no `c` is left, and a string
      without whitespace keeps none when `d` is not whitespace. */
  lemma ReplaceRemoves(s: string, c: char, d: char)
    requires c != d
    ensures c !in Replace(s, c, d)
    ensures NoSpace(s) && !IsSpace(d) ==> NoSpace(Replace(s, c, d))
  {
  }

  /** A string holding no `c` is left as it is by the replacement. */
  lemma ReplaceAbsent(s: string, c: char, d: char)
    requires c !in s
    ensures Replace(s, c, d) == s
  {
  }

  predicate IsDigit(c: char) {
    '0' <= c <= '9'
  }

  predicate AllDigits(s: string) {
    forall i :: 0 <= i < |s| ==> IsDigit(s[i])
  }

  function DigitChar(d: nat): (c: char)
    requires d < 10
    ensures IsDigit(c)
  {
    "0123456789"[d]
  }

  function DigitValue(c: char): (d: nat)
    requires IsDigit(c)
    ensures d < 10
  {
    (c as int - '0' as int) as nat
  }

  /** The decimal digits of `n`, as `str(n)` or `f"{n}"` shows a non-negative
      `int` in Python. */
  function Decimal(n: nat): (r: string)
    ensures r != [] && AllDigits(r)
    ensures r[0] == '0' ==> n == 0
  {
    if n < 10 then [DigitChar(n)] else Decimal(n / 10) + [DigitChar(n % 10)]
  }

  /** The number a string of decimal digits denotes, as `int(s)` reads it. */
  function DecimalValue(s: string): nat
    requires AllDigits(s)
  {
    if s == [] then 0 else 10 * DecimalValue(s[..|s| - 1]) + DigitValue(s[|s| - 1])
  }

  /** Reading back the decimal digits of `n` gives `n`. */
  lemma {:induction false} DecimalRoundTrip(n: nat)
    ensures DecimalValue(Decimal(n)) == n
  {
    var r := Decimal(n);
    if n >= 10 {
      DecimalRoundTrip(n / 10);
      assert r[..|r| - 1] == Decimal(n / 10);
    }
  }

  /** Different numbers have different decimal renderings. */
  lemma DecimalInjective(m: nat, n: nat)
    requires Decimal(m) == Decimal(n)
    ensures m == n
  {
    DecimalRoundTrip(m);
    DecimalRoundTrip(n);
  }
}
