/**
 * The parts of Python's built-in string behaviour that the calendar agent and the SQL
 * evaluation script rely on: which characters are whitespace, `str.strip()`, the `in`
 * operator on strings, how a letter of a pattern compiled with `re.IGNORECASE` matches,
 * decimal numerals as `int()` reads them, the zero-padded numeric fields of `strftime`,
 * `str(n)` for a non-negative `int`, and `str.lower()` on ASCII letters.
 */
module PyStr {

  /** `str.isspace()` of one character. `\s` in a `re` pattern over `str`, `str.split()`
      and `str.strip()` all use this same set of characters. */
  predicate IsSpace(c: char) {
    var n := c as int;
    (9 <= n <= 13) || (0x1C <= n <= 0x20) || n == 0x85 || n == 0xA0 || n == 0x1680
    || (0x2000 <= n <= 0x200A) || n == 0x2028 || n == 0x2029 || n == 0x202F
    || n == 0x205F || n == 0x3000
  }

  predicate AllSpace(s: string) {
    forall i :: 0 <= i < |s| ==> IsSpace(s[i])
  }

  /** The first index at or after `i` whose character is not whitespace, or |s|. */
  function SpaceEnd(s: string, i: nat): (j: nat)
    requires i <= |s|
    ensures i <= j <= |s|
    ensures forall k :: i <= k < j ==> IsSpace(s[k])
    ensures j < |s| ==> !IsSpace(s[j])
    decreases |s| - i
  {
    if i == |s| || !IsSpace(s[i]) then i else SpaceEnd(s, i + 1)
  }

  /** Skipping whitespace from anywhere inside a run of whitespace lands at the same place. */
  lemma {:induction false} SpaceEndWithin(s: string, i: nat, j: nat)
    requires i <= j <= |s|
    requires forall k :: i <= k < j ==> IsSpace(s[k])
    ensures SpaceEnd(s, i) == SpaceEnd(s, j)
    decreases j - i
  {
    if i < j {
      SpaceEndWithin(s, i + 1, j);
    }
  }

  /** The index just past the last non-whitespace character of s[lo..hi], or `lo`. */
  function TrimmedEnd(s: string, lo: nat, hi: nat): (j: nat)
    requires lo <= hi <= |s|
    ensures lo <= j <= hi
    ensures forall k :: j <= k < hi ==> IsSpace(s[k])
    ensures j > lo ==> !IsSpace(s[j - 1])
    decreases hi
  {
    if hi == lo || !IsSpace(s[hi - 1]) then hi else TrimmedEnd(s, lo, hi - 1)
  }

  /** `str.strip()` without argument: the text between the leading and the trailing
      whitespace. */
  function Strip(s: string): (r: string)
    ensures r == [] || (!IsSpace(r[0]) && !IsSpace(r[|r| - 1]))
    ensures SpaceEnd(s, 0) + |r| <= |s|
    ensures r == s[SpaceEnd(s, 0)..SpaceEnd(s, 0) + |r|]
    ensures AllSpace(s[SpaceEnd(s, 0) + |r|..])
  {
    var i := SpaceEnd(s, 0);
    s[i..TrimmedEnd(s, i, |s|)]
  }

  /** A string whose two ends are not whitespace is its own strip. */
  lemma StripUnchanged(s: string)
    requires s == [] || (!IsSpace(s[0]) && !IsSpace(s[|s| - 1]))
    ensures Strip(s) == s
  {
    if s != [] {
      assert SpaceEnd(s, 0) == 0;
    }
  }

  predicate OccursAt(s: string, p: string, i: nat) {
    i + |p| <= |s| && s[i..i + |p|] == p
  }

  /** Python's `p in s` on two strings. */
  predicate Contains(s: string, p: string) {
    exists i: nat | i <= |s| :: OccursAt(s, p, i)
  }

  /** A piece of a string that does not contain `p` does not contain `p` either. */
  lemma NoOccurrenceInSlice(s: string, p: string, i: nat, j: nat)
    requires i <= j <= |s|
    requires !Contains(s, p)
    ensures !Contains(s[i..j], p)
  {
    var t := s[i..j];
    forall k: nat | k <= |t|
      ensures OccursAt(t, p, k) ==> OccursAt(s, p, i + k)
    {
      if k + |p| <= |t| {
        var a, b := s[i + k..i + k + |p|], t[k..k + |p|];
        forall m | 0 <= m < |p|
          ensures a[m] == b[m]
        {
          assert a[m] == s[i + k + m] && b[m] == t[k + m];
        }
        assert a == b;
      }
    }
  }

  /** Whether the character `c` matches the pattern character `lo` (an ASCII letter written
      in lower case, or any other character) under `re.IGNORECASE`: a letter matches what
      lower-cases to it (its upper-case form; U+0130 for i, U+212A KELVIN SIGN for k) and the
      two extra equivalences the `re` module adds for ASCII letters (U+0131 dotless i,
      U+017F long s). Any other pattern character matches only itself. */
  predicate FoldsTo(c: char, lo: char) {
    c == lo
    || ('a' <= lo <= 'z' && c as int == lo as int - 32)
    || (lo == 'i' && (c as int == 0x130 || c as int == 0x131))
    || (lo == 's' && c as int == 0x17F)
    || (lo == 'k' && c as int == 0x212A)
  }

  /** The lower-case pattern literal `p` matches `s` at index `i` under `re.IGNORECASE`. */
  predicate FoldMatchAt(s: string, i: nat, p: string) {
    i + |p| <= |s| && forall k :: 0 <= k < |p| ==> FoldsTo(s[i + k], p[k])
  }

  predicate IsDigit(c: char) {
    '0' <= c <= '9'
  }

  predicate AllDigits(s: string) {
    forall i :: 0 <= i < |s| ==> IsDigit(s[i])
  }

  function DigitValue(c: char): nat
    requires IsDigit(c)
  {
    c as int - '0' as int
  }

  function DigitChar(d: nat): (c: char)
    requires d < 10
    ensures IsDigit(c) && DigitValue(c) == d
  {
    ('0' as int + d) as char
  }

  /** The value of a decimal numeral as `int()` reads it (leading zeros allowed). */
  function Value(s: string): nat
    requires AllDigits(s)
    decreases |s|
  {
    if s == [] then 0 else Value(s[..|s| - 1]) * 10 + DigitValue(s[|s| - 1])
  }

  function Pow10(n: nat): (r: nat)
    ensures r >= 1
  {
    if n == 0 then 1 else 10 * Pow10(n - 1)
  }

  /** `n` written with exactly `w` digits, zero-padded on the left: the `%m`, `%d`, `%H`,
      `%M` (w = 2) and `%Y` (w = 4) fields of `strftime`. */
  function Pad(n: nat, w: nat): (r: string)
    ensures |r| == w && AllDigits(r)
    ensures n < Pow10(w) ==> Value(r) == n
    decreases w
  {
    if w == 0 then ""
    else
      var r := Pad(n / 10, w - 1) + [DigitChar(n % 10)];
      assert r[..|r| - 1] == Pad(n / 10, w - 1);
      r
  }

  /** Reading a numeral and padding its value back to the numeral's width gives the
      numeral again: a fixed-width field is determined by its value. */
  lemma {:induction false} PadValue(s: string)
    requires AllDigits(s)
    ensures Pad(Value(s), |s|) == s
    decreases |s|
  {
    if s != [] {
      var t := s[..|s| - 1];
      var d := DigitValue(s[|s| - 1]);
      PadValue(t);
      assert (Value(t) * 10 + d) / 10 == Value(t);
      assert (Value(t) * 10 + d) % 10 == d;
      assert s == t + [s[|s| - 1]];
    }
  }

  /** `str(n)` for a non-negative `int`: the decimal numeral of `n`, without leading zeros. */
  function NatToString(n: nat): (r: string)
    ensures |r| >= 1 && AllDigits(r) && Value(r) == n
    ensures r[0] == '0' ==> r == "0"
    decreases n
  {
    if n < 10 then [DigitChar(n)]
    else
      var r := NatToString(n / 10) + [DigitChar(n % 10)];
      assert r[..|r| - 1] == NatToString(n / 10);
      r
  }

  predicate IsUpperAscii(c: char) {
    'A' <= c <= 'Z'
  }

  function LowerChar(c: char): (d: char)
    ensures !IsUpperAscii(d)
    ensures IsUpperAscii(c) ==> d as int == c as int + 32
    ensures !IsUpperAscii(c) ==> d == c
  {
    if IsUpperAscii(c) then (c as int + 32) as char else c
  }

  /** `str.lower()` on the ASCII letters; every other character is kept. */
  function LowerAscii(s: string): (r: string)
    ensures |r| == |s|
    ensures forall i :: 0 <= i < |s| ==> r[i] == LowerChar(s[i])
  {
    seq(|s|, i requires 0 <= i < |s| => LowerChar(s[i]))
  }
}
