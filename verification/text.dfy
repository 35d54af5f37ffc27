/**
  The JavaScript string operations the task list uses: `trim`, `toLowerCase`,
  `includes` and the decimal rendering of an integer inside a template
  literal. A string is a sequence of Unicode scalar values, one `char`
  each; JavaScript's strings are sequences of UTF-16 code units, which
  differ only for lone surrogates and for characters beyond the Basic
  Multilingual Plane.
 */
module Text {

  import opened Wrappers

  /**
    The characters `String.prototype.trim` removes: the WhiteSpace and
    LineTerminator code points of section 12.2 and 12.3 of ECMA-262
    (tab, line feed, vertical tab, form feed, carriage return, space,
    no-break space, the byte order mark, and the Unicode space separators,
    line separator and paragraph separator).
   */
  predicate IsWhitespace(c: char)
    ensures IsWhitespace(c) <==> c as int in TrimmedCodePoints
  {
    var n := c as int;
    || 0x09 <= n <= 0x0D
    || n == 0x20 || n == 0xA0 || n == 0x1680
    || 0x2000 <= n <= 0x200A
    || n == 0x2028 || n == 0x2029 || n == 0x202F || n == 0x205F
    || n == 0x3000 || n == 0xFEFF
  }

  /**
    The same characters listed one by one: tab, line feed, vertical tab,
    form feed and carriage return; the space separators of category Zs;
    line separator and paragraph separator; and the byte order mark.
   */
  const TrimmedCodePoints: set<int> := {
    0x09, 0x0A, 0x0B, 0x0C, 0x0D,
    0x20, 0xA0, 0x1680,
    0x2000, 0x2001, 0x2002, 0x2003, 0x2004, 0x2005, 0x2006, 0x2007, 0x2008, 0x2009, 0x200A,
    0x202F, 0x205F, 0x3000,
    0x2028, 0x2029,
    0xFEFF
  }

  /** Whether `s` holds at least one character that is not whitespace. */
  ghost predicate HasNonWhitespace(s: string)
  {
    exists i :: 0 <= i < |s| && !IsWhitespace(s[i])
  }

  /** The index of the first character of `s` at or after `i` that is not whitespace, or `|s|` if there is none. */
  function FirstNonWhitespace(s: string, i: nat): (j: nat)
    requires i <= |s|
    ensures i <= j <= |s|
    ensures forall k :: i <= k < j ==> IsWhitespace(s[k])
    ensures j == |s| || !IsWhitespace(s[j])
    decreases |s| - i
  {
    if i < |s| && IsWhitespace(s[i]) then FirstNonWhitespace(s, i + 1) else i
  }

  /**
    The index just past the last character of `s` before `j`, and not before
    `lo`, that is not whitespace, or `lo` if there is none.
   */
  function AfterLastNonWhitespace(s: string, lo: nat, j: nat): (k: nat)
    requires lo <= j <= |s|
    ensures lo <= k <= j
    ensures forall m :: k <= m < j ==> IsWhitespace(s[m])
    ensures k == lo || !IsWhitespace(s[k - 1])
    decreases j - lo
  {
    if lo < j && IsWhitespace(s[j - 1]) then AfterLastNonWhitespace(s, lo, j - 1) else j
  }

  /**
    `String.prototype.trim`: the slice of `s` left after cutting whitespace,
    and only whitespace, from both ends; neither end of the result is
    whitespace.
   */
  function Trim(s: string): (r: string)
    ensures var k := FirstNonWhitespace(s, 0);
      && k + |r| <= |s| && r == s[k..k + |r|]
      && (forall i :: 0 <= i < k ==> IsWhitespace(s[i]))
      && (forall i :: k + |r| <= i < |s| ==> IsWhitespace(s[i]))
    ensures |r| == 0 || (!IsWhitespace(r[0]) && !IsWhitespace(r[|r| - 1]))
  {
    var k := FirstNonWhitespace(s, 0);
    s[k..AfterLastNonWhitespace(s, k, |s|)]
  }

  /** `!s.trim()`: the trimmed string is empty, which is exactly when `s` has no non-whitespace character. */
  predicate IsBlank(s: string)
    ensures IsBlank(s) <==> !HasNonWhitespace(s)
  {
    |Trim(s)| == 0
  }

  /** Whitespace around a string never decides whether it is blank. */
  lemma BlankIgnoresPadding(before: string, s: string, after: string)
    requires forall i :: 0 <= i < |before| ==> IsWhitespace(before[i])
    requires forall i :: 0 <= i < |after| ==> IsWhitespace(after[i])
    ensures IsBlank(before + s + after) == IsBlank(s)
  {
    var padded := before + s + after;
    if HasNonWhitespace(s) {
      var i :| 0 <= i < |s| && !IsWhitespace(s[i]);
      assert padded[|before| + i] == s[i];
    }
    if HasNonWhitespace(padded) {
      var i :| 0 <= i < |padded| && !IsWhitespace(padded[i]);
      assert |before| <= i < |before| + |s|;
      assert s[i - |before|] == padded[i];
    }
  }

  /** `toLowerCase` on one character, restricted to the ASCII letters. */
  function LowerChar(c: char): (d: char)
    ensures !('A' <= d <= 'Z')
    ensures !('A' <= c <= 'Z') ==> d == c
    ensures 'A' <= c <= 'Z' ==> d as int - c as int == 'a' as int - 'A' as int
  {
    if 'A' <= c <= 'Z' then (c as int - 'A' as int + 'a' as int) as char else c
  }

  /** `String.prototype.toLowerCase`, folding the ASCII letters only. */
  function ToLower(s: string): (r: string)
    ensures |r| == |s|
    ensures forall i :: 0 <= i < |s| ==> r[i] == LowerChar(s[i])
  {
    seq(|s|, i requires 0 <= i < |s| => LowerChar(s[i]))
  }

  /** Lowercasing a lowercased string changes nothing. */
  lemma ToLowerIdempotent(s: string)
    ensures ToLower(ToLower(s)) == ToLower(s)
  {
  }

  /** Lowercasing commutes with taking a slice. */
  lemma ToLowerSlice(s: string, i: nat, j: nat)
    requires i <= j <= |s|
    ensures ToLower(s)[i..j] == ToLower(s[i..j])
  {
  }

  /** `q` occurs in `s` starting at index `i`. */
  ghost predicate OccursAt(s: string, q: string, i: int)
  {
    0 <= i && i + |q| <= |s| && s[i..i + |q|] == q
  }

  /** `s` begins with `q`. */
  predicate StartsWith(s: string, q: string)
  {
    |q| <= |s| && s[..|q|] == q
  }

  /**
    `String.prototype.includes`: whether `q` occurs somewhere in `s`, that
    is, at some index of `s`.
   */
  predicate Contains(s: string, q: string)
    ensures Contains(s, q) <==> exists i :: OccursAt(s, q, i)
    decreases |s|
  {
    OccursShift(s, q);
    StartsWith(s, q) || (|s| > 0 && Contains(s[1..], q))
  }

  /** An occurrence is either at the front or an occurrence in the tail, one index on. */
  lemma OccursShift(s: string, q: string)
    ensures (exists i :: OccursAt(s, q, i))
        <==> StartsWith(s, q) || (|s| > 0 && exists j :: OccursAt(s[1..], q, j))
  {
    if StartsWith(s, q) {
      assert OccursAt(s, q, 0);
    } else if |s| > 0 {
      if j :| OccursAt(s[1..], q, j) {
        assert s[1..][j..j + |q|] == s[j + 1..j + 1 + |q|];
        assert OccursAt(s, q, j + 1);
      }
      if i :| OccursAt(s, q, i) {
        assert i != 0;
        assert s[1..][i - 1..i - 1 + |q|] == s[i..i + |q|];
        assert OccursAt(s[1..], q, i - 1);
      }
    }
  }

  /** The empty string occurs in every string. */
  lemma ContainsEmpty(s: string)
    ensures Contains(s, "")
  {
    assert OccursAt(s, "", 0);
  }

  /** A case-sensitive occurrence is still an occurrence once both sides are lowercased. */
  lemma ContainsLower(s: string, q: string)
    requires Contains(s, q)
    ensures Contains(ToLower(s), ToLower(q))
  {
    var i :| OccursAt(s, q, i);
    ToLowerSlice(s, i, i + |q|);
    assert OccursAt(ToLower(s), ToLower(q), i);
  }

  // Decimal rendering of integers, as `${n}` produces it.

  function DigitChar(d: nat): (c: char)
    requires d < 10
  {
    ('0' as int + d) as char
  }

  predicate IsDigit(c: char)
  {
    '0' <= c <= '9'
  }

  /**
    The decimal digits of `n`, most significant first: a non-empty string
    of digits whose value is `n`, starting with `0` only when `n` is zero.
   */
  function NatToString(n: nat): (s: string)
    ensures |s| > 0
    ensures forall i :: 0 <= i < |s| ==> IsDigit(s[i])
    ensures DigitsValue(s) == n
    ensures s[0] == '0' ==> n == 0
    decreases n
  {
    if n < 10 then [DigitChar(n)]
    else
      var s := NatToString(n / 10) + [DigitChar(n % 10)];
      assert s[..|s| - 1] == NatToString(n / 10);
      s
  }

  /**
    A decimal numeral in the form JavaScript prints an integer in: an
    optional minus sign, then at least one digit, with no leading zero
    except in `0` itself and no minus sign before `0`.
   */
  predicate IsCanonicalNumeral(s: string)
  {
    var digits := if |s| > 0 && s[0] == '-' then s[1..] else s;
    && |digits| > 0
    && (forall i :: 0 <= i < |digits| ==> IsDigit(digits[i]))
    && (digits[0] == '0' ==> digits == "0")
    && (|s| > 0 && s[0] == '-' ==> digits != "0")
  }

  /**
    The string `${n}` renders: a canonical numeral that reads back as `n`
    and starts with a minus sign exactly when `n` is negative.
   */
  function IntToString(n: int): (s: string)
    ensures |s| > 0 && (s[0] == '-' <==> n < 0)
    ensures IsCanonicalNumeral(s)
    ensures ParseInt(s) == Some(n)
  {
    if n < 0 then
      var digits := NatToString(-n);
      assert ("-" + digits)[1..] == digits;
      "-" + digits
    else
      var digits := NatToString(n);
      assert digits[0] == '0' ==> digits == "0";
      digits
  }

  function DigitValue(c: char): (d: nat)
    requires IsDigit(c)
    ensures d < 10
  {
    c as int - '0' as int
  }

  /** The value of a string of decimal digits. */
  function DigitsValue(s: string): nat
    requires forall i :: 0 <= i < |s| ==> IsDigit(s[i])
  {
    if |s| == 0 then 0
    else 10 * DigitsValue(s[..|s| - 1]) + DigitValue(s[|s| - 1])
  }

  /** Reads back a decimal integer: an optional minus sign and at least one digit. */
  function ParseInt(s: string): Option<int>
  {
    if |s| > 0 && s[0] == '-' then
      (if |s| > 1 && forall i :: 1 <= i < |s| ==> IsDigit(s[i]) then Some(0 - DigitsValue(s[1..]) as int) else None)
    else if |s| > 0 && forall i :: 0 <= i < |s| ==> IsDigit(s[i]) then Some(DigitsValue(s))
    else None
  }

  /** A digit string whose first digit is not zero has a positive value. */
  lemma {:induction false} LeadingDigitPositive(p: string)
    requires |p| > 0 && forall i :: 0 <= i < |p| ==> IsDigit(p[i])
    requires p[0] != '0'
    ensures DigitsValue(p) > 0
    decreases |p|
  {
    if |p| > 1 {
      var init := p[..|p| - 1];
      assert init[0] == p[0];
      LeadingDigitPositive(init);
    }
  }

  /** A digit string without a leading zero is the rendering of its own value. */
  lemma {:induction false} CanonicalDigits(d: string)
    requires |d| > 0 && forall i :: 0 <= i < |d| ==> IsDigit(d[i])
    requires d[0] == '0' ==> |d| == 1
    ensures NatToString(DigitsValue(d)) == d
    decreases |d|
  {
    var m := DigitsValue(d);
    var last := d[|d| - 1];
    assert DigitChar(DigitValue(last)) == last;
    if |d| > 1 {
      var init := d[..|d| - 1];
      assert init[0] == d[0];
      CanonicalDigits(init);
      LeadingDigitPositive(init);
      assert m / 10 == DigitsValue(init) && m % 10 == DigitValue(last);
      assert d == init + [last];
    }
  }

  /**
    Only one canonical numeral reads back as a given integer: the one
    `IntToString` produces. So the rendering of an integer is fixed.
   */
  lemma CanonicalNumeralUnique(s: string, n: int)
    requires IsCanonicalNumeral(s) && ParseInt(s) == Some(n)
    ensures s == IntToString(n)
  {
    if |s| > 0 && s[0] == '-' {
      NegativeNumeralUnique(s, n);
    } else {
      CanonicalDigits(s);
    }
  }

  /** The negative half of `CanonicalNumeralUnique`: a minus sign, then the rendering of `-n`. */
  lemma NegativeNumeralUnique(s: string, n: int)
    requires IsCanonicalNumeral(s) && ParseInt(s) == Some(n)
    requires |s| > 0 && s[0] == '-'
    ensures s == IntToString(n)
  {
    var digits := s[1..];
    CanonicalDigits(digits);
    assert n == 0 - DigitsValue(digits) as int;
    assert s == "-" + digits;
  }

  /** Distinct integers render as distinct strings. */
  lemma IntToStringInjective(a: int, b: int)
    requires IntToString(a) == IntToString(b)
    ensures a == b
  {
    assert ParseInt(IntToString(a)) == Some(a);
  }

}
