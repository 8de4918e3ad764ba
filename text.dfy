/**
 * Characters and decimal rendering as the formatter needs them: the ASCII word
 * characters of a regular expression's `\b`, the upper-casing that a
 * case-insensitive match compares, JavaScript's rendering of an integer as a
 * decimal string, and the zero padding the formatter applies to components.
 */
module Text {

  /** The characters `\w` stands for in a JavaScript regular expression without the `u` flag. */
  predicate IsWordChar(c: char) {
    ('a' <= c <= 'z') || ('A' <= c <= 'Z') || ('0' <= c <= '9') || c == '_'
  }

  predicate IsDigit(c: char) {
    '0' <= c <= '9'
  }

  predicate IsLetter(c: char) {
    ('a' <= c <= 'z') || ('A' <= c <= 'Z')
  }

  predicate AllWord(s: string) {
    forall k :: 0 <= k < |s| ==> IsWordChar(s[k])
  }

  predicate AllDigits(s: string) {
    forall k :: 0 <= k < |s| ==> IsDigit(s[k])
  }

  predicate AllLetters(s: string) {
    forall k :: 0 <= k < |s| ==> IsLetter(s[k])
  }

  /**
   * The canonical form a case-insensitive match compares: ASCII lower-case
   * letters become upper-case, every other character stays. JavaScript never
   * canonicalises a character outside ASCII to one inside it, so for the ASCII
   * letters of the tokens this agrees with the language's own rule.
   */
  function Upper(c: char): (u: char)
    ensures IsWordChar(u) == IsWordChar(c)
    ensures IsLetter(u) == IsLetter(c)
    ensures !('a' <= u <= 'z')
    ensures IsLetter(c) ==> 'A' <= u <= 'Z'
    ensures !IsLetter(c) ==> u == c
    ensures 'a' <= c <= 'z' ==> u as int == c as int - 32
    ensures 'A' <= c <= 'Z' ==> u == c
  {
    if 'a' <= c <= 'z' then (c as int - 32) as char else c
  }

  /** ASCII lower-casing of one character. */
  function Lower(c: char): (l: char)
    ensures IsLetter(c) ==> 'a' <= l <= 'z' && Upper(l) == Upper(c)
    ensures !IsLetter(c) ==> l == c
  {
    if 'A' <= c <= 'Z' then (c as int + 32) as char else c
  }

  /** The canonical form of a whole string. */
  function UpperString(s: string): (r: string)
    ensures |r| == |s|
    ensures forall k :: 0 <= k < |s| ==> r[k] == Upper(s[k])
  {
    if s == [] then [] else [Upper(s[0])] + UpperString(s[1..])
  }

  function LowerString(s: string): (r: string)
    ensures |r| == |s|
    ensures forall k :: 0 <= k < |s| ==> r[k] == Lower(s[k])
  {
    if s == [] then [] else [Lower(s[0])] + LowerString(s[1..])
  }

  function DigitChar(d: nat): (c: char)
    requires d < 10
    ensures IsDigit(c)
    ensures DigitValue(c) == d
  {
    (48 + d) as char
  }

  function DigitValue(c: char): (d: nat)
    requires IsDigit(c)
    ensures d < 10
  {
    c as int - 48
  }

  /** The number a string of decimal digits denotes (the empty string denotes 0). */
  function DigitsValue(s: string): nat
    requires AllDigits(s)
  {
    if s == [] then 0 else DigitsValue(s[..|s| - 1]) * 10 + DigitValue(s[|s| - 1])
  }

  /**
   * JavaScript's rendering of a non-negative integer: the shortest decimal
   * string, no leading zero. Reading the digits back gives the number.
   */
  function Decimal(n: nat): (r: string)
    ensures AllDigits(r)
    ensures DigitsValue(r) == n
    ensures 1 <= |r|
    ensures r[0] != '0' || n == 0
    ensures n < 10 <==> |r| == 1
    ensures 10 <= n < 100 ==> |r| == 2
    ensures 100 <= n < 1000 ==> |r| == 3
    ensures 1000 <= n < 10000 ==> |r| == 4
    ensures 10000 <= n ==> |r| >= 5
    decreases n
  {
    if n < 10 then [DigitChar(n)]
    else
      var prefix := Decimal(n / 10);
      var r := prefix + [DigitChar(n % 10)];
      assert r[..|r| - 1] == prefix;
      r
  }

  /** JavaScript's rendering of an integer: a minus sign before the digits of a negative one. */
  function IntToString(i: int): (r: string)
    ensures i >= 0 ==> AllDigits(r) && DigitsValue(r) == i
    ensures i < 0 ==> |r| >= 2 && r[0] == '-' && AllDigits(r[1..]) && DigitsValue(r[1..]) == -i
    ensures i >= 0 ==> 1 <= |r| && (r[0] != '0' || i == 0)
    ensures i < 0 ==> r[1] != '0'
  {
    if i < 0 then
      var r := "-" + Decimal(-i);
      assert r[1..] == Decimal(-i);
      r
    else Decimal(i)
  }

  /**
   * A digit string without a leading zero is the rendering of its value, so
   * digits, value and no leading zero fix a rendering completely.
   */
  lemma {:induction false} Canonical(s: string)
    requires AllDigits(s) && 1 <= |s| && (s[0] != '0' || |s| == 1)
    ensures s == Decimal(DigitsValue(s))
    decreases |s|
  {
    var v := DigitsValue(s);
    if |s| == 1 {
      assert s[..|s| - 1] == [] && DigitsValue([]) == 0;
      assert v == DigitValue(s[0]);
      assert DigitChar(v) == s[0];
    } else {
      var p, c := s[..|s| - 1], s[|s| - 1];
      assert p[0] == s[0];
      Canonical(p);
      var w := DigitsValue(p);
      assert w != 0;
      assert v / 10 == w && v % 10 == DigitValue(c);
      assert DigitChar(DigitValue(c)) == c;
      assert s == p + [c];
    }
  }

  lemma {:induction false} LeadingZero(s: string)
    requires AllDigits(s)
    ensures AllDigits("0" + s) && DigitsValue("0" + s) == DigitsValue(s)
    decreases |s|
  {
    if s != [] {
      var t := "0" + s;
      assert t[..|t| - 1] == "0" + s[..|s| - 1];
      LeadingZero(s[..|s| - 1]);
    }
  }

  /**
   * The two-digit form the formatter builds for day, hour, minute and second:
   * the number itself from 10 on, a `0` before it below 10.
   */
  function Pad2(n: nat): (r: string)
    ensures AllDigits(r)
    ensures n < 100 ==> |r| == 2 && DigitsValue(r) == n
  {
    if n >= 10 then Decimal(n)
    else
      LeadingZero(Decimal(n));
      "0" + Decimal(n)
  }

  /** The three-digit form the formatter builds for the millisecond. */
  function Pad3(n: nat): (r: string)
    ensures AllDigits(r)
    ensures n < 1000 ==> |r| == 3 && DigitsValue(r) == n
  {
    if n < 10 then
      LeadingZero(Decimal(n));
      LeadingZero("0" + Decimal(n));
      assert "00" + Decimal(n) == "0" + ("0" + Decimal(n));
      "00" + Decimal(n)
    else if n < 100 then
      LeadingZero(Decimal(n));
      "0" + Decimal(n)
    else Decimal(n)
  }

  /** JavaScript's `substr(2)`: the string without its first two characters, empty when it is shorter. */
  function DropTwo(s: string): (r: string)
    ensures |r| == if |s| <= 2 then 0 else |s| - 2
    ensures forall k :: 0 <= k < |r| ==> r[k] == s[k + 2]
  {
    if |s| <= 2 then "" else s[2..]
  }
}
