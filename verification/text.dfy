/**
 * The .NET string primitives the application relies on: `char.IsWhiteSpace`,
 * `string.IsNullOrWhiteSpace`, `Trim`, `ToLowerInvariant`, ordinal substring
 * search, `string.Join` and the `D<n>` number format.
 */
module Text {
  import opened Wrappers

  /** `char.IsWhiteSpace`: the Unicode separators (Zs, Zl, Zp) plus U+0009..U+000D and U+0085. */
  predicate IsWhiteSpace(c: char) {
    || c == ' '
    || ('\t' <= c <= '\r')
    || c == '\U{0085}'
    || c == '\U{00A0}'
    || c == '\U{1680}'
    || ('\U{2000}' <= c <= '\U{200A}')
    || c == '\U{2028}'
    || c == '\U{2029}'
    || c == '\U{202F}'
    || c == '\U{205F}'
    || c == '\U{3000}'
  }

  /** Every character is white space (true of the empty string). */
  predicate IsBlank(s: string) {
    forall i :: 0 <= i < |s| ==> IsWhiteSpace(s[i])
  }

  /** `string.IsNullOrWhiteSpace`. */
  predicate IsNullOrWhiteSpace(s: Option<string>) {
    s.None? || IsBlank(s.value)
  }

  /** `string.IsNullOrEmpty`. */
  predicate IsNullOrEmpty(s: Option<string>) {
    s.None? || s.value == ""
  }

  /** `s ?? ""`. */
  function OrEmpty(s: Option<string>): (r: string) {
    s.GetOr("")
  }

  /** Neither end of `s` is white space. */
  predicate IsTrimmed(s: string) {
    s == [] || (!IsWhiteSpace(s[0]) && !IsWhiteSpace(s[|s| - 1]))
  }

  /** How many white-space characters `s` starts with. */
  function LeadingBlanks(s: string): (n: nat)
    ensures n <= |s|
    ensures forall k :: 0 <= k < n ==> IsWhiteSpace(s[k])
    ensures n < |s| ==> !IsWhiteSpace(s[n])
  {
    if s == [] || !IsWhiteSpace(s[0]) then 0 else 1 + LeadingBlanks(s[1..])
  }

  /** Where the white space that `s` ends with begins. */
  function TrailingStart(s: string): (j: nat)
    ensures j <= |s|
    ensures forall k :: j <= k < |s| ==> IsWhiteSpace(s[k])
    ensures j > 0 ==> !IsWhiteSpace(s[j - 1])
  {
    if s == [] || !IsWhiteSpace(s[|s| - 1]) then |s| else TrailingStart(s[..|s| - 1])
  }

  /** A slice of `s` is blank when every character of `s` in that range is white space. */
  lemma BlankSlice(s: string, a: nat, b: nat)
    requires a <= b <= |s|
    requires forall k :: a <= k < b ==> IsWhiteSpace(s[k])
    ensures IsBlank(s[a..b])
  {
    forall k | 0 <= k < b - a ensures IsWhiteSpace(s[a..b][k]) {
      assert s[a..b][k] == s[a + k];
    }
  }

  /**
   * `string.Trim()`: the result is the infix of `s` left after removing the
   * white space at both ends; it is empty exactly when `s` is blank.
   */
  function Trim(s: string): (r: string)
    ensures IsTrimmed(r)
    ensures IsBlank(s) <==> r == []
    ensures exists i, j :: 0 <= i <= j <= |s| && r == s[i..j] && IsBlank(s[..i]) && IsBlank(s[j..])
  {
    var i := LeadingBlanks(s);
    var j := TrailingStart(s);
    if i == |s| then
      BlankSlice(s, 0, |s|);
      assert s[..|s|] == s && s[|s|..] == [] && s[|s|..|s|] == [];
      []
    else
      assert !IsWhiteSpace(s[i]);
      assert i < j;
      BlankSlice(s, 0, i);
      BlankSlice(s, j, |s|);
      assert s[..i] == s[0..i] && s[j..] == s[j..|s|];
      assert !IsWhiteSpace(s[i..j][0]) && !IsWhiteSpace(s[i..j][j - i - 1]);
      s[i..j]
  }

  /** Trimming leaves an already trimmed string alone. */
  lemma TrimOfTrimmed(s: string)
    requires IsTrimmed(s)
    ensures Trim(s) == s
  {
  }

  lemma TrimIdempotent(s: string)
    ensures Trim(Trim(s)) == Trim(s)
  {
    TrimOfTrimmed(Trim(s));
  }

  /** Trimming neither makes a string blank nor stops it being blank. */
  lemma TrimKeepsBlankness(s: string)
    ensures IsBlank(Trim(s)) <==> IsBlank(s)
  {
    var r := Trim(s);
    if r != [] {
      assert !IsWhiteSpace(r[0]);
    }
  }

  /** `char.ToLowerInvariant` on the letters this model folds (ASCII A-Z). */
  function ToLowerChar(c: char): (r: char)
    ensures IsWhiteSpace(r) <==> IsWhiteSpace(c)
    ensures !('A' <= r <= 'Z')
  {
    if 'A' <= c <= 'Z' then (c as int + 32) as char else c
  }

  /** `string.ToLowerInvariant`: character by character, same length. */
  function ToLower(s: string): (r: string)
    ensures |r| == |s|
    ensures forall i :: 0 <= i < |s| ==> r[i] == ToLowerChar(s[i])
  {
    seq(|s|, i requires 0 <= i < |s| => ToLowerChar(s[i]))
  }

  lemma ToLowerIdempotent(s: string)
    ensures ToLower(ToLower(s)) == ToLower(s)
  {
  }

  /** Lower-casing never turns a character into or out of white space. */
  lemma ToLowerPreservesBlank(s: string)
    ensures IsBlank(ToLower(s)) <==> IsBlank(s)
    ensures IsTrimmed(ToLower(s)) <==> IsTrimmed(s)
  {
    if !IsBlank(s) {
      var i :| 0 <= i < |s| && !IsWhiteSpace(s[i]);
      assert !IsWhiteSpace(ToLower(s)[i]);
    }
  }

  /** The positions where `Trim` cuts `s`. */
  lemma TrimBounds(s: string) returns (i: nat, j: nat)
    ensures i <= j <= |s| && Trim(s) == s[i..j]
    ensures forall k :: 0 <= k < i ==> IsWhiteSpace(s[k])
    ensures forall k :: j <= k < |s| ==> IsWhiteSpace(s[k])
    ensures i < j ==> !IsWhiteSpace(s[i]) && !IsWhiteSpace(s[j - 1])
  {
    i := LeadingBlanks(s);
    j := if i == |s| then |s| else TrailingStart(s);
    if i < |s| {
      assert !IsWhiteSpace(s[i]);
    }
  }

  /** Lower-casing commutes with taking a slice. */
  lemma ToLowerSlice(s: string, i: nat, j: nat)
    requires i <= j <= |s|
    ensures ToLower(s[i..j]) == ToLower(s)[i..j]
  {
  }

  /** Lower-casing then trimming gives the same as trimming then lower-casing. */
  lemma ToLowerOfTrim(s: string)
    ensures ToLower(Trim(s)) == Trim(ToLower(s))
  {
    var i, j := TrimBounds(s);
    var ls := ToLower(s);
    forall k | 0 <= k < i ensures IsWhiteSpace(ls[k]) {
      assert ls[k] == ToLowerChar(s[k]);
    }
    forall k | j <= k < |s| ensures IsWhiteSpace(ls[k]) {
      assert ls[k] == ToLowerChar(s[k]);
    }
    if i < j {
      assert ls[i] == ToLowerChar(s[i]) && ls[j - 1] == ToLowerChar(s[j - 1]);
    }
    TrimUniqueAt(ls, i, j);
    ToLowerSlice(s, i, j);
  }

  /** A trimmed infix with only white space around it is the trim of the whole. */
  lemma TrimUniqueAt(s: string, i: nat, j: nat)
    requires i <= j <= |s|
    requires forall k :: 0 <= k < i ==> IsWhiteSpace(s[k])
    requires forall k :: j <= k < |s| ==> IsWhiteSpace(s[k])
    requires i < j ==> !IsWhiteSpace(s[i]) && !IsWhiteSpace(s[j - 1])
    ensures Trim(s) == s[i..j]
  {
    if i < j {
      var n := LeadingBlanks(s);
      assert !IsWhiteSpace(s[i]);
      assert n <= i;
      assert !IsWhiteSpace(s[n]);
      var t := TrailingStart(s);
      assert !IsWhiteSpace(s[j - 1]);
      assert j <= t;
      assert !IsWhiteSpace(s[t - 1]);
    } else {
      assert IsBlank(s);
    }
  }

  /** Where the pieces of `s` sit inside `pre + s + post`. */
  lemma SliceOfPadded(pre: string, s: string, post: string, i: nat, j: nat)
    requires i <= j <= |s|
    ensures var p := pre + s + post;
      && p[|pre| + i..|pre| + j] == s[i..j]
      && p[..|pre| + i] == pre + s[..i]
      && p[|pre| + j..] == s[j..] + post
  {
    var p := pre + s + post;
    assert p == (pre + s[..j]) + (s[j..] + post) by {
      assert s == s[..j] + s[j..];
    }
  }

  /** White space put around a string does not change its trim. */
  lemma TrimPadding(pre: string, s: string, post: string)
    requires IsBlank(pre) && IsBlank(post)
    ensures Trim(pre + s + post) == Trim(s)
    ensures IsBlank(pre + s + post) <==> IsBlank(s)
  {
    var p := pre + s + post;
    PaddedTrim(pre, s, post);
    assert IsBlank(p) <==> Trim(p) == [];
  }

  /** The trim of `pre + s + post` is the trim of `s`, cut at the same places shifted by `|pre|`. */
  lemma PaddedTrim(pre: string, s: string, post: string)
    requires IsBlank(pre) && IsBlank(post)
    ensures Trim(pre + s + post) == Trim(s)
  {
    var i, j := TrimBounds(s);
    PaddedCut(pre, s, post, i, j);
  }

  /** Where `s` would be cut, shifted by `|pre|`, is where `pre + s + post` is cut. */
  lemma PaddedCut(pre: string, s: string, post: string, i: nat, j: nat)
    requires IsBlank(pre) && IsBlank(post)
    requires i <= j <= |s|
    requires forall k :: 0 <= k < i ==> IsWhiteSpace(s[k])
    requires forall k :: j <= k < |s| ==> IsWhiteSpace(s[k])
    requires i < j ==> !IsWhiteSpace(s[i]) && !IsWhiteSpace(s[j - 1])
    ensures Trim(pre + s + post) == s[i..j]
  {
    BlankPaddedLeft(pre, s, post, i);
    BlankPaddedRight(pre, s, post, j);
    SliceOfPadded(pre, s, post, i, j);
    var p := pre + s + post;
    if i < j {
      assert p[|pre| + i] == s[i] && p[|pre| + j - 1] == s[j - 1];
    }
    TrimUniqueAt(p, |pre| + i, |pre| + j);
  }

  /** White space before `s`, and `s`'s own leading white space, lead `pre + s + post`. */
  lemma BlankPaddedLeft(pre: string, s: string, post: string, i: nat)
    requires i <= |s| && forall k :: 0 <= k < i ==> IsWhiteSpace(s[k])
    requires IsBlank(pre)
    ensures forall k :: 0 <= k < |pre| + i ==> IsWhiteSpace((pre + s + post)[k])
  {
    var p := pre + s + post;
    forall k | 0 <= k < |pre| + i ensures IsWhiteSpace(p[k]) {
      if k < |pre| { assert p[k] == pre[k]; } else { assert p[k] == s[k - |pre|]; }
    }
  }

  /** `s`'s own trailing white space, and white space after `s`, end `pre + s + post`. */
  lemma BlankPaddedRight(pre: string, s: string, post: string, j: nat)
    requires j <= |s| && forall k :: j <= k < |s| ==> IsWhiteSpace(s[k])
    requires IsBlank(post)
    ensures forall k :: |pre| + j <= k < |pre + s + post| ==> IsWhiteSpace((pre + s + post)[k])
  {
    var p := pre + s + post;
    forall k | |pre| + j <= k < |p| ensures IsWhiteSpace(p[k]) {
      if k < |pre| + |s| { assert p[k] == s[k - |pre|]; } else { assert p[k] == post[k - |pre| - |s|]; }
    }
  }

  /** `q` occurs in `s` starting at position `k`. */
  predicate OccursAt(s: string, q: string, k: int) {
    0 <= k && k + |q| <= |s| && s[k..k + |q|] == q
  }

  /** `s.Contains(q)` with ordinal comparison. */
  ghost predicate Contains(s: string, q: string) {
    exists k :: OccursAt(s, q, k)
  }

  /** `s.IndexOf(q, StringComparison.Ordinal)`: the first position of `q` in `s`, or -1. */
  function IndexOf(s: string, q: string): (r: int)
    ensures r >= -1
    ensures r >= 0 <==> Contains(s, q)
    ensures r >= 0 ==> OccursAt(s, q, r)
    ensures forall k :: 0 <= k < r ==> !OccursAt(s, q, k)
  {
    IndexOfFrom(s, q, 0)
  }

  function IndexOfFrom(s: string, q: string, from: nat): (r: int)
    ensures r == -1 || (from <= r && OccursAt(s, q, r))
    ensures forall k :: from <= k && (r < 0 || k < r) ==> !OccursAt(s, q, k)
    decreases |s| + 1 - from
  {
    if from + |q| > |s| then -1
    else if s[from..from + |q|] == q then from
    else IndexOfFrom(s, q, from + 1)
  }

  /** `s.IndexOf(q, StringComparison.OrdinalIgnoreCase) >= 0`. */
  predicate ContainsIgnoreCase(s: string, q: string) {
    IndexOf(ToLower(s), ToLower(q)) >= 0
  }

  /** `string.Join(sep, parts)`. */
  function Join(sep: string, parts: seq<string>): (r: string) {
    if parts == [] then ""
    else if |parts| == 1 then parts[0]
    else parts[0] + sep + Join(sep, parts[1..])
  }

  /** `char.IsDigit` on the decimal digits this model recognises (ASCII 0-9). */
  predicate IsDigit(c: char) {
    '0' <= c <= '9'
  }

  /** `s.Count(char.IsDigit)`. */
  function CountDigits(s: string): (r: nat)
    ensures r <= |s|
  {
    if s == [] then 0 else (if IsDigit(s[0]) then 1 else 0) + CountDigits(s[1..])
  }

  predicate AllDigits(s: string) {
    forall i :: 0 <= i < |s| ==> IsDigit(s[i])
  }

  function DigitChar(d: nat): (c: char)
    requires d < 10
    ensures IsDigit(c)
  {
    ('0' as int + d) as char
  }

  function DigitValue(c: char): nat
    requires IsDigit(c)
  {
    c as int - '0' as int
  }

  /** The shortest decimal numeral of `n` (`n.ToString()`). */
  function DecimalDigits(n: nat): (r: string)
    ensures |r| >= 1 && AllDigits(r)
  {
    if n < 10 then [DigitChar(n)] else DecimalDigits(n / 10) + [DigitChar(n % 10)]
  }

  /** `s.PadLeft(width, c)`. */
  function PadLeft(s: string, width: nat, c: char): (r: string)
    ensures |r| == if |s| >= width then |s| else width
    ensures r[|r| - |s|..] == s
    ensures forall i :: 0 <= i < |r| - |s| ==> r[i] == c
  {
    if |s| >= width then s else seq(width - |s|, _ => c) + s
  }

  /** `n.ToString("D" + width)`: the numeral of `n`, zero-padded to at least `width` digits. */
  function FormatNumber(n: nat, width: nat): (r: string)
    ensures |r| >= width && AllDigits(r)
  {
    var d := DecimalDigits(n);
    var r := PadLeft(d, width, '0');
    assert forall i :: |r| - |d| <= i < |r| ==> r[i] == d[i - (|r| - |d|)];
    r
  }

  /** The value of a numeral (leading zeros allowed). */
  function NumeralValue(s: string): nat
    requires AllDigits(s)
  {
    if s == [] then 0 else NumeralValue(s[..|s| - 1]) * 10 + DigitValue(s[|s| - 1])
  }

  /** Reads a non-empty run of decimal digits; anything else is rejected. */
  function ParseNumber(s: string): (r: Option<nat>)
    ensures r.Some? <==> s != [] && AllDigits(s)
  {
    if s != [] && AllDigits(s) then Some(NumeralValue(s)) else None
  }

  function Pow10(k: nat): (r: nat)
    ensures r >= 1
  {
    if k == 0 then 1 else 10 * Pow10(k - 1)
  }

  lemma {:induction false} NumeralValueOfDecimalDigits(n: nat)
    ensures NumeralValue(DecimalDigits(n)) == n
    decreases n
  {
    var s := DecimalDigits(n);
    if n >= 10 {
      NumeralValueOfDecimalDigits(n / 10);
      assert s[..|s| - 1] == DecimalDigits(n / 10);
    }
  }

  lemma {:induction false} NumeralValueLeadingZeros(z: string, s: string)
    requires forall i :: 0 <= i < |z| ==> z[i] == '0'
    requires AllDigits(s)
    ensures AllDigits(z + s) && NumeralValue(z + s) == NumeralValue(s)
    decreases |s| + |z|
  {
    assert AllDigits(z + s) by {
      forall i | 0 <= i < |z + s| ensures IsDigit((z + s)[i]) {
        if i < |z| { assert (z + s)[i] == z[i]; } else { assert (z + s)[i] == s[i - |z|]; }
      }
    }
    if s == [] {
      if z != [] {
        assert z + s == z;
        NumeralValueLeadingZeros(z[..|z| - 1], []);
        assert z[..|z| - 1] + [] == z[..|z| - 1];
      }
    } else {
      NumeralValueLeadingZeros(z, s[..|s| - 1]);
      assert (z + s)[..|z + s| - 1] == z + s[..|s| - 1];
    }
  }

  /** Round trip: reading back a formatted number gives the number, whatever the padding. */
  lemma ParseFormatNumber(n: nat, width: nat)
    ensures ParseNumber(FormatNumber(n, width)) == Some(n)
  {
    var d := DecimalDigits(n);
    var r := FormatNumber(n, width);
    NumeralValueOfDecimalDigits(n);
    var z := r[..|r| - |d|];
    assert r == z + d;
    NumeralValueLeadingZeros(z, d);
  }

  /** Round trip: `n.ToString()` reads back as `n`. */
  lemma ParseDecimalDigits(n: nat)
    ensures ParseNumber(DecimalDigits(n)) == Some(n)
  {
    NumeralValueOfDecimalDigits(n);
  }

  /** The numeral of `n` fits in `w` digits exactly when `n < 10^w`. */
  lemma {:induction false} DecimalDigitsLength(n: nat, w: nat)
    requires w >= 1
    ensures |DecimalDigits(n)| <= w <==> n < Pow10(w)
    decreases n
  {
    if n >= 10 {
      if w == 1 {
        assert |DecimalDigits(n)| >= 2 by { assert |DecimalDigits(n / 10)| >= 1; }
      } else {
        DecimalDigitsLength(n / 10, w - 1);
      }
    } else {
      assert Pow10(w) >= 10 by { assert Pow10(w) == 10 * Pow10(w - 1); }
    }
  }

  /** A number below `10^w` formats to exactly `w` characters. */
  lemma FormatNumberWidth(n: nat, w: nat)
    requires w >= 1 && n < Pow10(w)
    ensures |FormatNumber(n, w)| == w
  {
    DecimalDigitsLength(n, w);
  }

  /** The white space `int.TryParse` skips around a number: tab to carriage return, and space. */
  predicate IsNumberWhite(c: char) {
    c == ' ' || '\t' <= c <= '\r'
  }

  const Int32Min: int := -0x8000_0000
  const Int32Max: int := 0x7FFF_FFFF

  /** The length of the run of number white space `s` starts with. */
  function LeadingNumberWhite(s: string): (n: nat)
    ensures n <= |s|
    ensures forall k :: 0 <= k < n ==> IsNumberWhite(s[k])
    ensures n < |s| ==> !IsNumberWhite(s[n])
  {
    if s == [] || !IsNumberWhite(s[0]) then 0 else 1 + LeadingNumberWhite(s[1..])
  }

  /** Where the run of number white space `s` ends with starts. */
  function TrailingNumberWhite(s: string): (j: nat)
    ensures j <= |s|
    ensures forall k :: j <= k < |s| ==> IsNumberWhite(s[k])
    ensures j > 0 ==> !IsNumberWhite(s[j - 1])
  {
    if s == [] || !IsNumberWhite(s[|s| - 1]) then |s| else TrailingNumberWhite(s[..|s| - 1])
  }

  /** `s` without the number white space around it. */
  function NumberCore(s: string): (r: string)
    ensures r == [] || (!IsNumberWhite(r[0]) && !IsNumberWhite(r[|r| - 1]))
  {
    var i := LeadingNumberWhite(s);
    if i == |s| then []
    else
      var j := TrailingNumberWhite(s);
      assert !IsNumberWhite(s[i]);
      assert i < j;
      s[i..j]
  }

  /** An infix with no number white space at its ends and only number white space around it is the core. */
  lemma NumberCoreUnique(s: string, i: nat, j: nat)
    requires i <= j <= |s|
    requires forall k :: 0 <= k < i ==> IsNumberWhite(s[k])
    requires forall k :: j <= k < |s| ==> IsNumberWhite(s[k])
    requires i < j ==> !IsNumberWhite(s[i]) && !IsNumberWhite(s[j - 1])
    ensures NumberCore(s) == s[i..j]
  {
    var n := LeadingNumberWhite(s);
    if i < j {
      assert !IsNumberWhite(s[i]);
      assert n <= i;
      assert !IsNumberWhite(s[n]);
      var t := TrailingNumberWhite(s);
      assert !IsNumberWhite(s[j - 1]);
      assert j <= t;
      assert !IsNumberWhite(s[t - 1]);
    } else {
      forall k | 0 <= k < |s| ensures IsNumberWhite(s[k]) {
      }
      assert n == |s|;
    }
  }

  /** Where `NumberCore` cuts `s`. */
  lemma NumberCoreBounds(s: string) returns (i: nat, j: nat)
    ensures i <= j <= |s| && NumberCore(s) == s[i..j]
    ensures forall k :: 0 <= k < i ==> IsNumberWhite(s[k])
    ensures forall k :: j <= k < |s| ==> IsNumberWhite(s[k])
    ensures i < j ==> !IsNumberWhite(s[i]) && !IsNumberWhite(s[j - 1])
  {
    i := LeadingNumberWhite(s);
    j := if i == |s| then |s| else TrailingNumberWhite(s);
    if i < |s| {
      assert !IsNumberWhite(s[i]);
    }
  }

  /** Number white space put around a string does not change its core. */
  lemma NumberCorePadding(pre: string, s: string, post: string)
    requires forall k :: 0 <= k < |pre| ==> IsNumberWhite(pre[k])
    requires forall k :: 0 <= k < |post| ==> IsNumberWhite(post[k])
    ensures NumberCore(pre + s + post) == NumberCore(s)
  {
    var i, j := NumberCoreBounds(s);
    PaddedLeft(pre, s, post, i);
    PaddedRight(pre, s, post, j);
    SliceOfPadded(pre, s, post, i, j);
    var p := pre + s + post;
    if i < j {
      assert p[|pre| + i] == s[i] && p[|pre| + j - 1] == s[j - 1];
    }
    NumberCoreUnique(p, |pre| + i, |pre| + j);
  }

  /** Number white space before `s`, and `s`'s own leading white space, lead `pre + s + post`. */
  lemma PaddedLeft(pre: string, s: string, post: string, i: nat)
    requires i <= |s| && forall k :: 0 <= k < i ==> IsNumberWhite(s[k])
    requires forall k :: 0 <= k < |pre| ==> IsNumberWhite(pre[k])
    ensures forall k :: 0 <= k < |pre| + i ==> IsNumberWhite((pre + s + post)[k])
  {
    var p := pre + s + post;
    forall k | 0 <= k < |pre| + i ensures IsNumberWhite(p[k]) {
      if k < |pre| { assert p[k] == pre[k]; } else { assert p[k] == s[k - |pre|]; }
    }
  }

  /** `s`'s own trailing white space, and number white space after `s`, end `pre + s + post`. */
  lemma PaddedRight(pre: string, s: string, post: string, j: nat)
    requires j <= |s| && forall k :: j <= k < |s| ==> IsNumberWhite(s[k])
    requires forall k :: 0 <= k < |post| ==> IsNumberWhite(post[k])
    ensures forall k :: |pre| + j <= k < |pre + s + post| ==> IsNumberWhite((pre + s + post)[k])
  {
    var p := pre + s + post;
    forall k | |pre| + j <= k < |p| ensures IsNumberWhite(p[k]) {
      if k < |pre| + |s| { assert p[k] == s[k - |pre|]; } else { assert p[k] == post[k - |pre| - |s|]; }
    }
  }

  /** A number with no white space at its ends is its own core. */
  lemma NumberCoreOfBare(s: string)
    requires s != [] && !IsNumberWhite(s[0]) && !IsNumberWhite(s[|s| - 1])
    ensures NumberCore(s) == s
  {
    NumberCoreUnique(s, 0, |s|);
    assert s[0..|s|] == s;
  }

  /** A bare numeral is its own core. */
  lemma NumeralIsCore(s: string)
    ensures ParseNumber(s).Some? ==> NumberCore(s) == s
  {
    if ParseNumber(s).Some? {
      assert IsDigit(s[0]) && IsDigit(s[|s| - 1]);
      NumberCoreOfBare(s);
    }
  }

  /**
   * `int.TryParse(s, out n)` under the default `NumberStyles.Integer` with
   * the invariant culture's signs: number white space on either side, an
   * optional `+` or `-`, one or more ASCII digits, and a value within `Int32`.
   */
  function TryParseInt32(s: string): (r: Option<int>)
    ensures r.Some? ==> Int32Min <= r.value <= Int32Max
    ensures ParseNumber(s).Some? ==>
      r == if ParseNumber(s).value <= Int32Max then Some(ParseNumber(s).value) else None
  {
    NumeralIsCore(s);
    SignedValue(NumberCore(s))
  }

  /** What `int.TryParse` reads from the text between the white space: an optional sign, then digits within `Int32`. */
  function SignedValue(core: string): (r: Option<int>)
    ensures r.Some? ==> Int32Min <= r.value <= Int32Max
    ensures ParseNumber(core).Some? ==>
      r == if ParseNumber(core).value <= Int32Max then Some(ParseNumber(core).value) else None
  {
    var digits := if core != [] && (core[0] == '+' || core[0] == '-') then core[1..] else core;
    match ParseNumber(digits)
    case None => None
    case Some(n) =>
      var v: int := if core[0] == '-' then -(n as int) else n;
      if Int32Min <= v <= Int32Max then Some(v) else None
  }

  /** A sign followed by a numeral reads as that signed value, when it fits in `Int32`. */
  lemma TryParseSigned(n: nat)
    ensures TryParseInt32("-" + DecimalDigits(n)) == if n <= -Int32Min then Some(-(n as int)) else None
    ensures TryParseInt32("+" + DecimalDigits(n)) == if n <= Int32Max then Some(n) else None
  {
    SignedCore('-', n);
    SignedCore('+', n);
  }

  /** A sign and a numeral form their own core, and the numeral follows the sign. */
  lemma SignedCore(sign: char, n: nat)
    requires sign == '-' || sign == '+'
    ensures var t := [sign] + DecimalDigits(n);
      NumberCore(t) == t && t[0] == sign && t[1..] == DecimalDigits(n)
      && ParseNumber(t[1..]) == Some(n)
  {
    var d := DecimalDigits(n);
    ParseDecimalDigits(n);
    assert IsDigit(d[|d| - 1]);
    var t := [sign] + d;
    assert t[|t| - 1] == d[|d| - 1];
    NumberCoreOfBare(t);
    assert t[1..] == d;
  }

  /** Number white space around the text does not change what `TryParseInt32` reads. */
  lemma TryParsePadding(pre: string, s: string, post: string)
    requires forall k :: 0 <= k < |pre| ==> IsNumberWhite(pre[k])
    requires forall k :: 0 <= k < |post| ==> IsNumberWhite(post[k])
    ensures TryParseInt32(pre + s + post) == TryParseInt32(s)
  {
    NumberCorePadding(pre, s, post);
  }
}
