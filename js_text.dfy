/**
 * The JavaScript string built-ins the server relies on: `String(n)` for an
 * integer, `String.prototype.trim`, `parseInt(s, 10)`, and the ASCII case
 * folding and substring test behind SQLite's `LIKE '%q%'`.
 */
module JsText {
  import opened Wrappers

  /** The WhiteSpace and LineTerminator code points of ECMAScript: what `trim` and `parseInt` skip. */
  predicate IsJsSpace(c: char) {
    c == ' ' || c == '\t' || c == '\n' || c == '\r' || c == '\U{000B}' || c == '\U{000C}'
    || c == '\U{00A0}' || c == '\U{1680}' || ('\U{2000}' <= c <= '\U{200A}')
    || c == '\U{2028}' || c == '\U{2029}' || c == '\U{202F}' || c == '\U{205F}'
    || c == '\U{3000}' || c == '\U{FEFF}'
  }

  predicate AllSpace(s: string) {
    forall i :: 0 <= i < |s| ==> IsJsSpace(s[i])
  }

  /** True when `s` neither starts nor ends with whitespace. */
  predicate IsTrimmed(s: string) {
    s == [] || (!IsJsSpace(s[0]) && !IsJsSpace(s[|s| - 1]))
  }

  /** The number of whitespace characters at the front of `s`. */
  function LeadingSpace(s: string): (k: nat)
    ensures k <= |s| && AllSpace(s[..k])
    ensures k < |s| ==> !IsJsSpace(s[k])
  {
    if s != [] && IsJsSpace(s[0]) then
      var k' := LeadingSpace(s[1..]);
      assert s[..k' + 1] == [s[0]] + s[1..][..k'];
      k' + 1
    else 0
  }

  /** The number of whitespace characters at the end of `s`. */
  function TrailingSpace(s: string): (k: nat)
    ensures k <= |s| && AllSpace(s[|s| - k..])
    ensures k < |s| ==> !IsJsSpace(s[|s| - k - 1])
  {
    if s != [] && IsJsSpace(s[|s| - 1]) then
      var init := s[..|s| - 1];
      var k' := TrailingSpace(init);
      SpaceSuffixGrows(s, k');
      assert k' + 1 < |s| ==> s[|s| - k' - 2] == init[|init| - k' - 1];
      k' + 1
    else 0
  }

  /** A blank last character extends a blank suffix of the rest by one. */
  lemma SpaceSuffixGrows(s: string, k: nat)
    requires s != [] && k <= |s| - 1 && IsJsSpace(s[|s| - 1])
    requires AllSpace(s[..|s| - 1][|s| - 1 - k..])
    ensures AllSpace(s[|s| - (k + 1)..])
  {
    var t := s[|s| - (k + 1)..];
    var r := s[..|s| - 1][|s| - 1 - k..];
    forall i | 0 <= i < |t| ensures IsJsSpace(t[i]) {
      if i < k {
        assert t[i] == r[i];
      }
    }
  }

  /** `s` without its leading whitespace, as `parseInt` first does. */
  function TrimStart(s: string): string {
    s[LeadingSpace(s)..]
  }

  /** `String.prototype.trim`: `s` without leading and trailing whitespace. */
  function Trim(s: string): (r: string)
    ensures |r| <= |s| && IsTrimmed(r)
  {
    var t := s[LeadingSpace(s)..];
    t[..|t| - TrailingSpace(t)]
  }

  /**
   * `Trim` removes whitespace and nothing else: `s` is the trimmed text with
   * whitespace on either side, and the result is empty exactly when `s` is blank.
   */
  lemma TrimRemovesOnlySpace(s: string)
    ensures var k := LeadingSpace(s);
      && s == s[..k] + Trim(s) + s[k + |Trim(s)|..]
      && AllSpace(s[..k]) && AllSpace(s[k + |Trim(s)|..])
    ensures Trim(s) == [] <==> AllSpace(s)
  {
    TrimSplits(s);
    TrimBlank(s);
  }

  lemma TrimSplits(s: string)
    ensures var k := LeadingSpace(s);
      && s == s[..k] + Trim(s) + s[k + |Trim(s)|..]
      && AllSpace(s[..k]) && AllSpace(s[k + |Trim(s)|..])
  {
    var k := LeadingSpace(s);
    var m := k + |Trim(s)|;
    TrimIsSlice(s, k, m);
    SliceParts(s, k, m);
  }

  /** The trimmed text is the slice between the leading and the trailing whitespace. */
  lemma TrimIsSlice(s: string, k: nat, m: nat)
    requires k == LeadingSpace(s) && m == k + |Trim(s)|
    ensures m <= |s| && Trim(s) == s[k..m] && AllSpace(s[m..])
  {
    var t := s[k..];
    var j := TrailingSpace(t);
    assert Trim(s) == t[..|t| - j];
    assert m == |s| - j;
    assert s[m..] == t[|t| - j..];
    assert t[..|t| - j] == s[k..m];
  }

  lemma SliceParts(s: string, k: int, m: int)
    requires 0 <= k <= m <= |s|
    ensures s == s[..k] + s[k..m] + s[m..]
  {
  }

  lemma TrimBlank(s: string)
    ensures Trim(s) == [] <==> AllSpace(s)
  {
    var k := LeadingSpace(s);
    var t := s[k..];
    if Trim(s) == [] {
      TrimSplits(s);
      assert s == s[..k] + s[k..];
      assert AllSpace(t);
    } else if k < |s| {
      assert !IsJsSpace(s[k]);
    }
  }

  /** Trimming is idempotent: a trimmed string is its own trim. */
  lemma TrimmedIsFixed(s: string)
    requires IsTrimmed(s)
    ensures Trim(s) == s
  {
    assert LeadingSpace(s) == 0;
    assert TrailingSpace(s) == 0;
  }

  lemma TrimIdempotent(s: string)
    ensures Trim(Trim(s)) == Trim(s)
  {
    TrimmedIsFixed(Trim(s));
  }

  predicate IsDigit(c: char) {
    '0' <= c <= '9'
  }

  predicate AllDigits(s: string) {
    forall i :: 0 <= i < |s| ==> IsDigit(s[i])
  }

  function DigitValue(c: char): (d: nat)
    requires IsDigit(c)
    ensures d < 10
  {
    c as int - '0' as int
  }

  function DigitChar(d: nat): (c: char)
    requires d < 10
    ensures IsDigit(c) && DigitValue(c) == d
  {
    ('0' as int + d) as char
  }

  /** `String(n)` for a non-negative integer: its decimal digits, without a leading zero. */
  function NatToString(n: nat): (s: string)
    ensures s != [] && AllDigits(s)
    ensures |s| > 1 ==> s[0] != '0'
    decreases n
  {
    if n < 10 then [DigitChar(n)] else NatToString(n / 10) + [DigitChar(n % 10)]
  }

  /** `String(n)` for an integer: a minus sign before the digits of a negative one. */
  function IntToString(n: int): (s: string)
    ensures s != [] && IsTrimmed(s)
    ensures n >= 0 <==> AllDigits(s)
  {
    if n < 0 then "-" + NatToString(-n) else NatToString(n)
  }

  /** The number of decimal digits at the front of `s`. */
  function LeadingDigits(s: string): (k: nat)
    ensures k <= |s| && AllDigits(s[..k])
    ensures k < |s| ==> !IsDigit(s[k])
  {
    if s != [] && IsDigit(s[0]) then
      var k' := LeadingDigits(s[1..]);
      assert s[..k' + 1] == [s[0]] + s[1..][..k'];
      k' + 1
    else 0
  }

  /** The number a string of decimal digits denotes. */
  function DigitsValue(s: string): nat
    requires AllDigits(s)
  {
    if s == [] then 0 else DigitsValue(s[..|s| - 1]) * 10 + DigitValue(s[|s| - 1])
  }

  /**
   * `parseInt(s, 10)`: skip leading whitespace, read an optional sign and then
   * as many decimal digits as there are; `None` stands for `NaN` (no digit).
   */
  function ParseInt(s: string): (r: Option<int>)
  {
    ParseSigned(TrimStart(s))
  }

  /** The part of `parseInt` after the whitespace: an optional sign, then the digits. */
  function ParseSigned(t: string): Option<int> {
    var signed := t != [] && (t[0] == '-' || t[0] == '+');
    var u := if signed then t[1..] else t;
    var k := LeadingDigits(u);
    if k == 0 then None
    else
      var v: int := DigitsValue(u[..k]);
      Some(if signed && t[0] == '-' then -v else v)
  }

  /** The whitespace in front of a string that starts with something else is exactly `ws`. */
  lemma {:induction false} LeadingSpaceOf(ws: string, t: string)
    requires AllSpace(ws) && t != [] && !IsJsSpace(t[0])
    ensures LeadingSpace(ws + t) == |ws|
  {
    if ws != [] {
      assert (ws + t)[1..] == ws[1..] + t;
      LeadingSpaceOf(ws[1..], t);
    } else {
      assert ws + t == t;
    }
  }

  /**
   * `parseInt(s, 10)` in general: leading whitespace, an optional sign, a run
   * of digits (leading zeros allowed) and any text not starting with a digit
   * read as the signed value of the digits.
   */
  lemma ParseIntOfParts(ws: string, sign: string, digits: string, rest: string)
    requires AllSpace(ws)
    requires sign == "" || sign == "+" || sign == "-"
    requires digits != [] && AllDigits(digits)
    requires rest == [] || !IsDigit(rest[0])
    ensures ParseInt(ws + sign + digits + rest)
      == Some(if sign == "-" then 0 - DigitsValue(digits) else DigitsValue(digits))
  {
    var t := sign + digits + rest;
    assert ws + sign + digits + rest == ws + t;
    assert t[0] == (if sign == "" then digits[0] else sign[0]);
    LeadingSpaceOf(ws, t);
    assert TrimStart(ws + t) == t;
    ParseSignedOf(sign, digits, rest);
  }

  /** With no whitespace in front: the sign, then the digits up to the first non-digit. */
  lemma ParseSignedOf(sign: string, digits: string, rest: string)
    requires sign == "" || sign == "+" || sign == "-"
    requires digits != [] && AllDigits(digits)
    requires rest == [] || !IsDigit(rest[0])
    ensures ParseSigned(sign + digits + rest)
      == Some(if sign == "-" then 0 - DigitsValue(digits) else DigitsValue(digits))
  {
    if sign == "" {
      assert sign + digits + rest == digits + rest;
      ParseUnsigned(digits, rest);
    } else {
      var c := sign[0];
      assert sign + digits + rest == [c] + (digits + rest);
      ParseWithSign(c, digits, rest);
    }
  }

  lemma ParseUnsigned(digits: string, rest: string)
    requires digits != [] && AllDigits(digits)
    requires rest == [] || !IsDigit(rest[0])
    ensures ParseSigned(digits + rest) == Some(DigitsValue(digits))
  {
    var u := digits + rest;
    LeadingDigitsOf(digits, rest);
    assert u[..|digits|] == digits;
    assert u[0] == digits[0];
  }

  lemma ParseWithSign(c: char, digits: string, rest: string)
    requires c == '+' || c == '-'
    requires digits != [] && AllDigits(digits)
    requires rest == [] || !IsDigit(rest[0])
    ensures ParseSigned([c] + (digits + rest))
      == Some(if c == '-' then 0 - DigitsValue(digits) else DigitsValue(digits))
  {
    var u := digits + rest;
    assert u[0] == digits[0];
    SignThenDigits(c, u);
    LeadingDigitsOf(digits, rest);
    assert u[..|digits|] == digits;
  }

  lemma SignThenDigits(c: char, u: string)
    requires (c == '+' || c == '-') && u != [] && IsDigit(u[0])
    ensures LeadingDigits(u) > 0
    ensures ParseSigned([c] + u)
      == Some(if c == '-' then 0 - DigitsValue(u[..LeadingDigits(u)]) else DigitsValue(u[..LeadingDigits(u)]))
  {
    assert ([c] + u)[0] == c;
    assert ([c] + u)[1..] == u;
  }

  lemma {:induction false} DigitsValueOfNat(n: nat)
    ensures DigitsValue(NatToString(n)) == n
    decreases n
  {
    if n >= 10 {
      var s := NatToString(n / 10);
      DigitsValueOfNat(n / 10);
      assert (s + [DigitChar(n % 10)])[..|s|] == s;
    }
  }

  /** `parseInt` reads back what `String` wrote, whatever non-digit text follows it. */
  lemma ParseIntOfIntToString(n: int, rest: string)
    requires rest == [] || !IsDigit(rest[0])
    ensures ParseInt(IntToString(n) + rest) == Some(n)
  {
    var digits := NatToString(if n < 0 then -n else n);
    var u := digits + rest;
    assert LeadingDigits(u) == |digits| by { LeadingDigitsOf(digits, rest); }
    assert u[..|digits|] == digits;
    DigitsValueOfNat(if n < 0 then -n else n);
    var s := IntToString(n) + rest;
    assert LeadingSpace(s) == 0;
    if n < 0 {
      assert s == ['-'] + u;
      assert TrimStart(s)[1..] == u;
    } else {
      assert s == u;
    }
  }

  lemma {:induction false} LeadingDigitsOf(digits: string, rest: string)
    requires AllDigits(digits)
    requires rest == [] || !IsDigit(rest[0])
    ensures LeadingDigits(digits + rest) == |digits|
  {
    if digits != [] {
      assert (digits + rest)[1..] == digits[1..] + rest;
      LeadingDigitsOf(digits[1..], rest);
    } else {
      assert digits + rest == rest;
    }
  }

  /** ASCII case folding, as SQLite's `LIKE` and `NOCASE` do it. */
  function LowerChar(c: char): char {
    if 'A' <= c <= 'Z' then (c as int + 32) as char else c
  }

  function UpperChar(c: char): char {
    if 'a' <= c <= 'z' then (c as int - 32) as char else c
  }

  function Lower(s: string): (r: string)
    ensures |r| == |s|
    ensures forall i :: 0 <= i < |s| ==> r[i] == LowerChar(s[i])
  {
    if s == [] then [] else [LowerChar(s[0])] + Lower(s[1..])
  }

  function Upper(s: string): (r: string)
    ensures |r| == |s|
    ensures forall i :: 0 <= i < |s| ==> r[i] == UpperChar(s[i])
  {
    if s == [] then [] else [UpperChar(s[0])] + Upper(s[1..])
  }

  /** Changing the case of a string does not change its folded form. */
  lemma LowerOfUpper(s: string)
    ensures Lower(Upper(s)) == Lower(s)
  {
    forall i | 0 <= i < |s| ensures Lower(Upper(s))[i] == Lower(s)[i] {
      assert LowerChar(UpperChar(s[i])) == LowerChar(s[i]);
    }
  }

  /** `q` occurs in `s` starting at index `i`. */
  predicate OccursAt(s: string, q: string, i: int) {
    0 <= i && i + |q| <= |s| && s[i..i + |q|] == q
  }

  /** Whether `q` occurs in `s`, found by trying each starting position in turn. */
  function Contains(s: string, q: string): bool {
    if q <= s then true else if s == [] then false else Contains(s[1..], q)
  }

  /** `Contains` agrees with the definition of a substring by a starting index. */
  lemma {:induction false} ContainsIff(s: string, q: string)
    ensures Contains(s, q) <==> exists i :: OccursAt(s, q, i)
  {
    if q <= s {
      assert OccursAt(s, q, 0);
    } else if s != [] {
      ContainsIff(s[1..], q);
      if Contains(s[1..], q) {
        var i :| OccursAt(s[1..], q, i);
        OccursShift(s, q, i + 1);
      } else {
        forall i ensures !OccursAt(s, q, i) {
          if 0 < i {
            OccursShift(s, q, i);
          }
        }
      }
    }
  }

  /** An occurrence past the first character is an occurrence in the rest of the string. */
  lemma OccursShift(s: string, q: string, i: int)
    requires s != [] && 0 < i
    ensures OccursAt(s, q, i) <==> OccursAt(s[1..], q, i - 1)
  {
    if i + |q| <= |s| {
      assert s[i..i + |q|] == s[1..][i - 1..i - 1 + |q|];
    }
  }
}
