/**
 * The parts of Rust's string library that the log codec and the time parser
 * depend on: `char::is_whitespace`, `str::trim`, `str::split`, decimal
 * formatting of integers and `str::parse::<i64>`.
 */
module Strings {
  import opened Wrappers

  /** `char::is_whitespace`: the characters with the Unicode White_Space property. */
  predicate IsWhitespace(c: char)
  {
    c == ' ' || ('\t' <= c <= '\r') || c == '\U{85}' || c == '\U{A0}' || c == '\U{1680}'
    || ('\U{2000}' <= c <= '\U{200A}') || c == '\U{2028}' || c == '\U{2029}'
    || c == '\U{202F}' || c == '\U{205F}' || c == '\U{3000}'
  }

  /** An ASCII decimal digit. */
  predicate IsDigit(c: char)
  {
    '0' <= c <= '9'
  }

  predicate AllDigits(s: string)
  {
    forall i :: 0 <= i < |s| ==> IsDigit(s[i])
  }

  function DigitValue(c: char): nat
    requires IsDigit(c)
  {
    c as int - '0' as int
  }

  function DigitChar(d: nat): (c: char)
    requires d < 10
    ensures IsDigit(c) && DigitValue(c) == d
  {
    ('0' as int + d) as char
  }

  /** The value of a string of decimal digits, most significant first. */
  function DigitsValue(s: string): nat
    requires AllDigits(s)
    decreases |s|
  {
    if |s| == 0 then 0 else DigitsValue(s[..|s| - 1]) * 10 + DigitValue(s[|s| - 1])
  }

  lemma DigitsValueSnoc(s: string, c: char)
    requires AllDigits(s) && IsDigit(c)
    ensures AllDigits(s + [c]) && DigitsValue(s + [c]) == DigitsValue(s) * 10 + DigitValue(c)
  {
    assert (s + [c])[..|s|] == s;
  }

  // ---------------------------------------------------------------------
  // Integers as text: `format!("{}", n)` and `str::parse::<i64>()`
  // ---------------------------------------------------------------------

  const I64Min: int := -0x8000_0000_0000_0000
  const I64Max: int := 0x7FFF_FFFF_FFFF_FFFF

  predicate InI64(n: int)
  {
    I64Min <= n <= I64Max
  }

  /** Decimal digits of a natural number, without leading zeros. */
  function NatToString(n: nat): (s: string)
    ensures |s| >= 1 && AllDigits(s) && DigitsValue(s) == n
    ensures s[0] == '0' ==> n == 0
    decreases n
  {
    if n < 10 then
      [DigitChar(n)]
    else
      var s := NatToString(n / 10) + [DigitChar(n % 10)];
      DigitsValueSnoc(NatToString(n / 10), DigitChar(n % 10));
      s
  }

  /**
   * `str::parse::<i64>`: an optional `+` or `-`, then one or more ASCII
   * digits, whose value must lie in the i64 range.
   */
  function ParseI64(s: string): (r: Option<int>)
    ensures r.Some? ==> InI64(r.value)
    ensures r.Some? ==> |s| > 0 && (AllDigits(s) || ((s[0] == '+' || s[0] == '-') && |s| > 1 && AllDigits(s[1..])))
  {
    var digits := if |s| > 0 && (s[0] == '-' || s[0] == '+') then s[1..] else s;
    if |digits| == 0 || !AllDigits(digits) then None
    else
      var v: int := if s[0] == '-' then 0 - (DigitsValue(digits) as int) else DigitsValue(digits);
      if InI64(v) then Some(v) else None
  }

  /** Bare digits read as their value, exactly when it lies in the i64 range. */
  lemma ParseI64Digits(s: string)
    requires |s| > 0 && AllDigits(s)
    ensures ParseI64(s) == (if InI64(DigitsValue(s)) then Some(DigitsValue(s) as int) else None)
  {
    assert !IsDigit('+') && !IsDigit('-') && IsDigit(s[0]);
  }

  /** `+` and digits read as the digits' value, exactly when it lies in the i64 range. */
  lemma ParseI64Plus(s: string)
    requires |s| > 1 && s[0] == '+' && AllDigits(s[1..])
    ensures ParseI64(s) == (if InI64(DigitsValue(s[1..])) then Some(DigitsValue(s[1..]) as int) else None)
  {
  }

  /** `-` and digits read as the negated value, exactly when it lies in the i64 range. */
  lemma ParseI64Minus(s: string)
    requires |s| > 1 && s[0] == '-' && AllDigits(s[1..])
    ensures ParseI64(s) == (if InI64(-(DigitsValue(s[1..]) as int)) then Some(-(DigitsValue(s[1..]) as int)) else None)
  {
  }

  /** Text ending in anything but a digit does not parse. */
  lemma ParseI64NonDigitEnd(s: string)
    requires |s| > 0 && !IsDigit(s[|s| - 1])
    ensures ParseI64(s).None?
  {
    if |s| > 1 {
      assert s[1..][|s| - 2] == s[|s| - 1];
    }
  }

  /** `format!("{}", n)`; within the i64 range, `parse::<i64>` reads it back. */
  function IntToString(n: int): (s: string)
    ensures |s| >= 1
    ensures forall i :: 0 <= i < |s| ==> IsDigit(s[i]) || (i == 0 && s[i] == '-')
    ensures InI64(n) ==> ParseI64(s) == Some(n)
  {
    if n < 0 then
      var digits := NatToString(-n);
      assert ("-" + digits)[1..] == digits;
      "-" + digits
    else
      NatToString(n)
  }

  // ---------------------------------------------------------------------
  // Searching and splitting: `str::find` and `str::split`
  // ---------------------------------------------------------------------

  predicate OccursAt(s: string, sep: string, i: int)
  {
    0 <= i && i + |sep| <= |s| && s[i..i + |sep|] == sep
  }

  predicate Contains(s: string, sep: string)
  {
    exists i | 0 <= i <= |s| :: OccursAt(s, sep, i)
  }

  /** Index of the first occurrence of `sep` in `s`. */
  function Find(s: string, sep: string): (r: Option<nat>)
    requires |sep| > 0
    ensures r.Some? ==> OccursAt(s, sep, r.value)
    ensures r.Some? ==> forall j :: 0 <= j < r.value ==> !OccursAt(s, sep, j)
    ensures r.None? <==> !Contains(s, sep)
  {
    FindFrom(s, sep, 0)
  }

  function FindFrom(s: string, sep: string, k: nat): (r: Option<nat>)
    requires |sep| > 0 && k <= |s|
    requires forall j :: 0 <= j < k ==> !OccursAt(s, sep, j)
    ensures r.Some? ==> OccursAt(s, sep, r.value)
    ensures r.Some? ==> forall j :: 0 <= j < r.value ==> !OccursAt(s, sep, j)
    ensures r.None? <==> !Contains(s, sep)
    decreases |s| - k
  {
    if k + |sep| > |s| then
      assert forall j :: !OccursAt(s, sep, j);
      None
    else if s[k..k + |sep|] == sep then
      assert OccursAt(s, sep, k);
      Some(k)
    else
      FindFrom(s, sep, k + 1)
  }

  /** Inverse of `Split`: the pieces with `sep` between consecutive ones. */
  function Join(pieces: seq<string>, sep: string): string
    requires |pieces| >= 1
    decreases |pieces|
  {
    if |pieces| == 1 then pieces[0] else pieces[0] + sep + Join(pieces[1..], sep)
  }

  /**
   * `str::split(sep)`: the pieces between the non-overlapping occurrences of
   * `sep`, found from left to right. Joining the pieces gives back `s`, and no
   * piece contains `sep`. The first piece ends at the first occurrence of
   * `sep` (and each later one likewise, `SplitLeftmost`), which settles the
   * pieces when occurrences of a longer separator overlap.
   */
  function Split(s: string, sep: string): (pieces: seq<string>)
    requires |sep| > 0
    ensures |pieces| >= 1
    ensures Join(pieces, sep) == s
    ensures forall i :: 0 <= i < |pieces| ==> !Contains(pieces[i], sep)
    ensures |pieces| > 1 ==> Find(s, sep) == Some(|pieces[0]|)
    decreases |s|
  {
    match Find(s, sep)
    case None => [s]
    case Some(i) =>
      var head, rest := s[..i], Split(s[i + |sep|..], sep);
      assert !Contains(head, sep) by {
        forall j | 0 <= j ensures !OccursAt(head, sep, j) {
          if j + |sep| <= |head| {
            assert head[j..j + |sep|] == s[j..j + |sep|];
            assert !OccursAt(s, sep, j);
          }
        }
      }
      assert ([head] + rest)[1..] == rest;
      assert head + sep + s[i + |sep|..] == s;
      [head] + rest
  }

  /**
   * Every piece but the last ends at the first occurrence of `sep` in the
   * text that remains from that piece on: the occurrences are taken from
   * left to right.
   */
  lemma {:induction false} SplitLeftmost(s: string, sep: string, k: int)
    requires |sep| > 0 && 0 <= k < |Split(s, sep)| - 1
    ensures Find(Join(Split(s, sep)[k..], sep), sep) == Some(|Split(s, sep)[k]|)
    decreases |s|
  {
    var pieces := Split(s, sep);
    var i := Find(s, sep).value;
    var rest := Split(s[i + |sep|..], sep);
    assert pieces == [s[..i]] + rest;
    if k == 0 {
      assert pieces[k..] == pieces;
    } else {
      assert pieces[k..] == rest[k - 1..] && pieces[k] == rest[k - 1];
      SplitLeftmost(s[i + |sep|..], sep, k - 1);
    }
  }

  /** With a one-character separator, the first piece ends at the first separator. */
  lemma {:induction false} SplitCons(a: string, sep: string, b: string)
    requires |sep| == 1 && !Contains(a, sep)
    ensures Split(a + sep + b, sep) == [a] + Split(b, sep)
  {
    var s := a + sep + b;
    assert OccursAt(s, sep, |a|);
    forall j | 0 <= j < |a| ensures !OccursAt(s, sep, j) {
      assert s[j..j + 1] == a[j..j + 1];
      assert !OccursAt(a, sep, j);
    }
    assert Find(s, sep) == Some(|a|);
    assert s[..|a|] == a;
    assert s[|a| + 1..] == b;
  }

  lemma SplitNone(s: string, sep: string)
    requires |sep| > 0 && !Contains(s, sep)
    ensures Split(s, sep) == [s]
  {
  }

  // ---------------------------------------------------------------------
  // Trimming: `str::trim`
  // ---------------------------------------------------------------------

  /** `trim_start`: drop the leading whitespace. */
  function TrimStart(s: string): (r: string)
    ensures |r| <= |s| && r == s[|s| - |r|..]
    ensures |r| > 0 ==> !IsWhitespace(r[0])
    ensures forall i :: 0 <= i < |s| - |r| ==> IsWhitespace(s[i])
    decreases |s|
  {
    if |s| > 0 && IsWhitespace(s[0]) then TrimStart(s[1..]) else s
  }

  /** `trim_end`: drop the trailing whitespace. */
  function TrimEnd(s: string): (r: string)
    ensures |r| <= |s| && r == s[..|r|]
    ensures |r| > 0 ==> !IsWhitespace(r[|r| - 1])
    ensures forall i :: |r| <= i < |s| ==> IsWhitespace(s[i])
    decreases |s|
  {
    if |s| > 0 && IsWhitespace(s[|s| - 1]) then TrimEnd(s[..|s| - 1]) else s
  }

  /** A string with neither leading nor trailing whitespace. */
  predicate IsTrimmed(s: string)
  {
    |s| == 0 || (!IsWhitespace(s[0]) && !IsWhitespace(s[|s| - 1]))
  }

  /** `r` is the slice `s[i..j]`, and everything of `s` outside it is whitespace. */
  predicate CutFrom(s: string, r: string, i: int, j: int)
  {
    && 0 <= i <= j <= |s| && r == s[i..j]
    && (forall k :: 0 <= k < i ==> IsWhitespace(s[k]))
    && (forall k :: j <= k < |s| ==> IsWhitespace(s[k]))
  }

  /**
   * `str::trim`: the slice of `s` left once the whitespace at both ends is
   * cut off. The result is trimmed, so nothing but whitespace is cut, and a
   * string that is already trimmed is returned unchanged.
   */
  function Trim(s: string): (r: string)
    ensures IsTrimmed(r)
    ensures exists i, j :: CutFrom(s, r, i, j)
    ensures forall c :: c in r ==> c in s
    ensures IsTrimmed(s) ==> r == s
  {
    var t := TrimStart(s);
    var r := TrimEnd(t);
    TrimCut(s, t, r);
    assert forall c :: c in r ==> c in t;
    assert forall c :: c in t ==> c in s;
    assert |r| > 0 ==> r[0] == t[0];
    r
  }

  /** Cutting whitespace off the front of `s`, then off the back of what is left, cuts a slice of `s`. */
  lemma TrimCut(s: string, t: string, r: string)
    requires |t| <= |s| && t == s[|s| - |t|..] && forall k :: 0 <= k < |s| - |t| ==> IsWhitespace(s[k])
    requires |r| <= |t| && r == t[..|r|] && forall k :: |r| <= k < |t| ==> IsWhitespace(t[k])
    ensures CutFrom(s, r, |s| - |t|, |s| - |t| + |r|)
  {
    var i := |s| - |t|;
    assert r == s[i..i + |r|];
    forall k | i + |r| <= k < |s| ensures IsWhitespace(s[k]) {
      assert s[k] == t[k - i];
    }
  }
}
