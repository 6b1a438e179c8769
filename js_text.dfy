/**
 * The pieces of the JavaScript string library that the service relies on:
 * the whitespace class `\s`, ASCII lowercasing, `trim`, `includes`, a
 * leftmost search (what `String.prototype.match` reports for a regular
 * expression without the `g` flag) and `parseInt` without a radix.
 */
module JsText {
  import opened Base

  /** LineTerminator of ECMAScript: what `.` in a regular expression never matches. */
  predicate IsLineTerminator(c: char) {
    c == '\n' || c == '\r' || c == '\U{2028}' || c == '\U{2029}'
  }

  /**
   * WhiteSpace or LineTerminator of ECMAScript: the class `\s`, and the
   * characters `trim` and `parseInt` skip. Zs is taken as of Unicode 15.
   */
  predicate IsSpace(c: char) {
    || c == '\t' || c == '\U{000B}' || c == '\U{000C}' || c == ' '
    || c == '\U{00A0}' || c == '\U{FEFF}' || c == '\U{1680}'
    || ('\U{2000}' <= c <= '\U{200A}')
    || c == '\U{202F}' || c == '\U{205F}' || c == '\U{3000}'
    || IsLineTerminator(c)
  }

  /** `\d` and `[0-9]`. */
  predicate IsDigit(c: char) { '0' <= c <= '9' }

  predicate IsHexDigit(c: char) { IsDigit(c) || 'a' <= c <= 'f' || 'A' <= c <= 'F' }

  /** `[a-zA-Z]`. */
  predicate IsAsciiLetter(c: char) { 'a' <= c <= 'z' || 'A' <= c <= 'Z' }

  /** `toLowerCase` on one character, restricted to the ASCII letters. */
  function LowerChar(c: char): (r: char)
    ensures !('A' <= r <= 'Z')
    ensures IsAsciiLetter(c) <==> IsAsciiLetter(r)
    ensures 'A' <= c <= 'Z' ==> r as int == c as int + 32
    ensures !('A' <= c <= 'Z') ==> r == c
  {
    if 'A' <= c <= 'Z' then (c as int + 32) as char else c
  }

  /** `toLowerCase`: maps every character, keeps the length. */
  function Lower(s: string): (r: string)
    ensures |r| == |s|
    ensures forall i :: 0 <= i < |s| ==> r[i] == LowerChar(s[i])
  {
    if s == [] then [] else [LowerChar(s[0])] + Lower(s[1..])
  }

  lemma LowerIdempotent(s: string)
    ensures Lower(Lower(s)) == Lower(s)
  {
    assert forall i :: 0 <= i < |s| ==> Lower(Lower(s))[i] == Lower(s)[i];
  }

  /** Text without capital letters is its own lowercase. */
  lemma LowerUnchanged(s: string)
    requires forall i :: 0 <= i < |s| ==> !('A' <= s[i] <= 'Z')
    ensures Lower(s) == s
  {
  }

  /** Length of the longest prefix of `s` whose characters all satisfy `p`. */
  function SpanLength(s: string, p: char -> bool): (n: nat)
    ensures n <= |s|
    ensures forall i :: 0 <= i < n ==> p(s[i])
    ensures n < |s| ==> !p(s[n])
  {
    if s == [] || !p(s[0]) then 0 else 1 + SpanLength(s[1..], p)
  }

  /** `trimStart`: drops the leading whitespace. */
  function TrimStart(s: string): (r: string)
    ensures |r| <= |s| && s == s[..|s| - |r|] + r
    ensures forall i :: 0 <= i < |s| - |r| ==> IsSpace(s[i])
    ensures r == [] || !IsSpace(r[0])
  {
    if s != [] && IsSpace(s[0]) then TrimStart(s[1..]) else s
  }

  /** `trimEnd`: drops the trailing whitespace. */
  function TrimEnd(s: string): (r: string)
    ensures |r| <= |s| && s == r + s[|r|..]
    ensures forall i :: |r| <= i < |s| ==> IsSpace(s[i])
    ensures r == [] || !IsSpace(r[|r| - 1])
  {
    if s != [] && IsSpace(s[|s| - 1]) then TrimEnd(s[..|s| - 1]) else s
  }

  /** `trim`. */
  function Trim(s: string): string {
    TrimEnd(TrimStart(s))
  }

  /** `s.includes(p)`: `p` occurs somewhere in `s`. */
  predicate Includes(s: string, p: string) {
    exists i :: 0 <= i <= |s| - |p| && OccursAt(s, p, i)
  }

  /** `p` occurs in `s` starting at index `i`. */
  predicate OccursAt(s: string, p: string, i: int) {
    0 <= i && i + |p| <= |s| && s[i..i + |p|] == p
  }

  /** An occurrence checked character by character. */
  lemma OccursAtByChars(s: string, p: string, i: nat)
    requires i + |p| <= |s| && forall k :: 0 <= k < |p| ==> s[i + k] == p[k]
    ensures OccursAt(s, p, i)
  {
    assert s[i..i + |p|] == p;
  }

  /** A character of `p` that `s` lacks rules out every occurrence of `p`. */
  lemma NotIncludes(s: string, p: string, k: nat)
    requires k < |p| && p[k] !in s
    ensures !Includes(s, p)
  {
    forall i | 0 <= i <= |s| - |p|
      ensures !OccursAt(s, p, i)
    {
      if i + |p| <= |s| {
        assert s[i + k] in s;
        assert s[i..i + |p|][k] == s[i + k];
      }
    }
  }

  /** The least index in `[from, to)` that satisfies `p`: a leftmost match. */
  function FindFirst(p: nat -> bool, lo: nat, hi: nat): (r: Option<nat>)
    decreases hi - lo
    ensures r.Some? ==> lo <= r.value < hi && p(r.value)
    ensures r.Some? ==> (forall j :: lo <= j < r.value ==> !p(j))
    ensures r.None? ==> (forall j :: lo <= j < hi ==> !p(j))
  {
    if hi <= lo then None
    else if p(lo) then Some(lo)
    else FindFirst(p, lo + 1, hi)
  }

  /** Value of the digit `c` in bases up to 16 (`0`-`9`, `a`-`f`, `A`-`F`). */
  function DigitValue(c: char): (v: nat)
    ensures IsHexDigit(c) ==> v < 16
    ensures IsDigit(c) ==> v < 10
  {
    if '0' <= c <= '9' then c as int - '0' as int
    else if 'a' <= c <= 'f' then c as int - 'a' as int + 10
    else if 'A' <= c <= 'F' then c as int - 'A' as int + 10
    else 0
  }

  /** Value of the numeral `d` written in base `radix`, most significant digit first. */
  function NumeralValue(d: string, radix: nat): nat {
    if d == [] then 0 else NumeralValue(d[..|d| - 1], radix) * radix + DigitValue(d[|d| - 1])
  }

  /** The part of `parseInt`'s input after leading whitespace and an optional sign. */
  function Unsigned(s: string): string {
    var t := TrimStart(s);
    if t != [] && (t[0] == '-' || t[0] == '+') then t[1..] else t
  }

  /** Whether `parseInt` negates: the first non-whitespace character is `-`. */
  predicate Negated(s: string) {
    var t := TrimStart(s);
    t != [] && t[0] == '-'
  }

  /** `parseInt` switches to base 16 on a `0x` or `0X` prefix. */
  predicate HexPrefixed(u: string) {
    |u| >= 2 && u[0] == '0' && (u[1] == 'x' || u[1] == 'X')
  }

  /**
   * The magnitude `parseInt` reads from `u`, which has neither leading
   * whitespace nor a sign: the longest run of digits (hexadecimal after
   * `0x`), `None` when that run is empty.
   */
  function Magnitude(u: string): (m: Option<nat>)
    ensures m.None? <==> if HexPrefixed(u) then |u| == 2 || !IsHexDigit(u[2]) else u == [] || !IsDigit(u[0])
  {
    if HexPrefixed(u) then
      var d := u[2..][..SpanLength(u[2..], IsHexDigit)];
      if d == [] then None else Some(NumeralValue(d, 16))
    else
      var d := u[..SpanLength(u, IsDigit)];
      if d == [] then None else Some(NumeralValue(d, 10))
  }

  /**
   * `parseInt(s)` with no radix: skip whitespace, read a sign, read the
   * magnitude; `None` stands for NaN. Characters after the digits are ignored.
   */
  function ParseInt(s: string): (r: Option<int>)
    ensures r.None? <==> Magnitude(Unsigned(s)).None?
    ensures r.Some? ==> r.value == if Negated(s) then -(Magnitude(Unsigned(s)).value as int) else Magnitude(Unsigned(s)).value
  {
    match Magnitude(Unsigned(s))
    case None => None
    case Some(m) => Some(if Negated(s) then -(m as int) else m)
  }

  /** The decimal numeral of `n` with no leading zeros: `String(n)` for a natural number. */
  function Digits(n: nat): (d: string)
    ensures d != [] && forall i :: 0 <= i < |d| ==> IsDigit(d[i])
    ensures |d| > 1 ==> d[0] != '0'
  {
    if n < 10 then [('0' as int + n) as char]
    else Digits(n / 10) + [('0' as int + n % 10) as char]
  }

  /** `String(n)` for an integer. */
  function Decimal(n: int): string {
    if n < 0 then "-" + Digits(-n) else Digits(n)
  }

  lemma {:induction false} DigitsValue(n: nat)
    ensures NumeralValue(Digits(n), 10) == n
  {
    if n >= 10 {
      var d := Digits(n);
      assert d[..|d| - 1] == Digits(n / 10);
      DigitsValue(n / 10);
    }
  }

  /** A prefix run of `p` characters followed by a non-`p` character spans exactly that run. */
  lemma {:induction false} SpanOfRun(d: string, rest: string, p: char -> bool)
    requires forall i :: 0 <= i < |d| ==> p(d[i])
    requires rest == [] || !p(rest[0])
    ensures SpanLength(d + rest, p) == |d|
  {
    if d != [] {
      assert (d + rest)[1..] == d[1..] + rest;
      SpanOfRun(d[1..], rest, p);
    } else {
      assert d + rest == rest;
    }
  }

  /** A run of decimal digits is read whole, and so is its value. */
  lemma {:induction false} DigitRunMagnitude(d: string, rest: string)
    requires d != [] && forall i :: 0 <= i < |d| ==> IsDigit(d[i])
    requires rest == [] || !IsDigit(rest[0])
    requires !HexPrefixed(d + rest)
    ensures Magnitude(d + rest) == Some(NumeralValue(d, 10))
  {
    var s := d + rest;
    SpanOfRun(d, rest, IsDigit);
    assert s[..|d|] == d;
  }

  /** `parseInt` of a bare run of decimal digits is the run's value. */
  lemma {:induction false} ParseDigitRun(d: string)
    requires d != [] && forall i :: 0 <= i < |d| ==> IsDigit(d[i])
    ensures ParseInt(d) == Some(NumeralValue(d, 10))
  {
    assert d + [] == d;
    if |d| >= 2 {
      assert IsDigit(d[1]);
    }
    DigitRunMagnitude(d, []);
    UnsignedDigits(d);
  }

  /** `parseInt` neither skips nor negates anything before a leading digit. */
  lemma {:induction false} UnsignedDigits(u: string)
    requires u != [] && IsDigit(u[0])
    ensures Unsigned(u) == u && !Negated(u)
  {
    assert !IsSpace(u[0]);
    assert TrimStart(u) == u;
    assert !(u[0] == '-' || u[0] == '+');
  }

  /** `parseInt` reads a `-` in front of a leading digit as the sign. */
  lemma {:induction false} UnsignedNegative(u: string)
    requires u != [] && IsDigit(u[0])
    ensures Unsigned("-" + u) == u && Negated("-" + u)
  {
    var v := "-" + u;
    assert v[0] == '-' && !IsSpace(v[0]);
    assert TrimStart(v) == v;
    assert v[1..] == u;
  }

  /** `String(n)` followed by `rest` cannot start with `0x` under the precondition of `ParseIntDecimal`. */
  lemma {:induction false} DecimalNotHexPrefixed(m: nat, rest: string)
    requires rest == [] || !IsDigit(rest[0])
    requires m == 0 && rest != [] ==> rest[0] != 'x' && rest[0] != 'X'
    ensures !HexPrefixed(Digits(m) + rest)
  {
    var d := Digits(m);
    var u := d + rest;
    if |d| > 1 || m > 0 {
      assert u[0] == d[0] != '0';
    } else if rest != [] {
      assert u[1] == rest[0];
    }
  }

  /** How `parseInt` reads a numeral with and without a leading `-`. */
  lemma {:induction false} ParseSigned(u: string, m: nat)
    requires u != [] && IsDigit(u[0]) && Magnitude(u) == Some(m)
    ensures ParseInt(u) == Some(m) && ParseInt("-" + u) == Some(-(m as int))
  {
    UnsignedDigits(u);
    UnsignedNegative(u);
  }

  /** `parseInt` reads back the numeral of `m`, with or without a leading `-`. */
  lemma {:induction false} ParseDigits(m: nat, rest: string)
    requires rest == [] || !IsDigit(rest[0])
    requires m == 0 && rest != [] ==> rest[0] != 'x' && rest[0] != 'X'
    ensures ParseInt(Digits(m) + rest) == Some(m)
    ensures ParseInt("-" + Digits(m) + rest) == Some(-(m as int))
  {
    var d := Digits(m);
    DigitsValue(m);
    DecimalNotHexPrefixed(m, rest);
    DigitRunMagnitude(d, rest);
    assert (d + rest)[0] == d[0];
    ParseSigned(d + rest, m);
    AppendAssociative("-", d, rest);
  }

  lemma AppendAssociative(a: string, b: string, c: string)
    ensures a + b + c == a + (b + c)
  {
  }

  /**
   * `parseInt` inverts `String(n)`, and the characters the numeral is
   * followed by are dropped ("5abc" reads as 5) unless they turn "0" into
   * a `0x` prefix.
   */
  lemma {:induction false} ParseIntDecimal(n: int, rest: string)
    requires rest == [] || !IsDigit(rest[0])
    requires n == 0 && rest != [] ==> rest[0] != 'x' && rest[0] != 'X'
    ensures ParseInt(Decimal(n) + rest) == Some(n)
  {
    if n < 0 {
      var m: nat := -n;
      var s := "-" + Digits(m) + rest;
      assert Decimal(n) + rest == s;
      ParseDigits(m, rest);
      assert ParseInt(s) == Some(n);
    } else {
      var s := Digits(n) + rest;
      assert Decimal(n) + rest == s;
      ParseDigits(n, rest);
      assert ParseInt(s) == Some(n);
    }
  }
}
