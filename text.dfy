/**
 * String helpers the page script relies on: `String.prototype.trim`,
 * `toLowerCase` (ASCII letters only) and the decimal rendering of a
 * non-negative integer, with a parser that inverts it.
 */
module Text {

  /** The white-space characters `trim` removes (the ASCII ones, NBSP and BOM). */
  predicate IsSpace(c: char) {
    c == ' ' || c == '\t' || c == '\n' || c == '\r' || c == '\U{B}' || c == '\U{C}'
    || c == '\U{A0}' || c == '\U{FEFF}'
  }

  /** `s` with its leading white space removed. */
  function TrimStart(s: string): string {
    if s != [] && IsSpace(s[0]) then TrimStart(s[1..]) else s
  }

  /** `s` with its trailing white space removed. */
  function TrimEnd(s: string): string {
    if s != [] && IsSpace(s[|s| - 1]) then TrimEnd(s[..|s| - 1]) else s
  }

  /** `s.trim()` */
  function Trim(s: string): string {
    TrimEnd(TrimStart(s))
  }

  /** `TrimStart` drops a white-space prefix and keeps the rest, which does
      not start with white space. */
  lemma {:induction false} TrimStartSpec(s: string)
    ensures |TrimStart(s)| <= |s| && TrimStart(s) == s[|s| - |TrimStart(s)|..]
    ensures forall k :: 0 <= k < |s| - |TrimStart(s)| ==> IsSpace(s[k])
    ensures TrimStart(s) != [] ==> !IsSpace(TrimStart(s)[0])
  {
    if s != [] && IsSpace(s[0]) {
      TrimStartSpec(s[1..]);
      forall k | 1 <= k < |s| - |TrimStart(s)| ensures IsSpace(s[k]) {
        assert s[k] == s[1..][k - 1];
      }
    }
  }

  /** `TrimEnd` drops a white-space suffix and keeps the rest, which does not
      end with white space. */
  lemma {:induction false} TrimEndSpec(s: string)
    ensures |TrimEnd(s)| <= |s| && TrimEnd(s) == s[..|TrimEnd(s)|]
    ensures forall k :: |TrimEnd(s)| <= k < |s| ==> IsSpace(s[k])
    ensures TrimEnd(s) != [] ==> !IsSpace(TrimEnd(s)[|TrimEnd(s)| - 1])
  {
    if s != [] && IsSpace(s[|s| - 1]) {
      TrimEndSpec(s[..|s| - 1]);
      forall k | |TrimEnd(s)| <= k < |s| - 1 ensures IsSpace(s[k]) {
        assert s[k] == s[..|s| - 1][k];
      }
    }
  }

  /** What `trim` keeps neither starts nor ends with white space. */
  lemma TrimSpec(s: string)
    ensures |Trim(s)| <= |s|
    ensures Trim(s) != [] ==> !IsSpace(Trim(s)[0]) && !IsSpace(Trim(s)[|Trim(s)| - 1])
  {
    var t := TrimStart(s);
    TrimStartSpec(s);
    TrimEndSpec(t);
    if Trim(s) != [] {
      assert Trim(s)[0] == t[0];
    }
  }

  /** `r` is `s[i..j]` and everything outside `i..j` is white space. */
  predicate CutAt(s: string, i: nat, j: nat, r: string) {
    && i <= j <= |s| && r == s[i..j]
    && (forall k :: 0 <= k < i ==> IsSpace(s[k]))
    && (forall k :: j <= k < |s| ==> IsSpace(s[k]))
  }

  /** What `trim` keeps is an infix of its input, and what it cuts off on
      either side is white space. */
  lemma TrimIsInfix(s: string)
    ensures exists i: nat, j: nat :: CutAt(s, i, j, Trim(s))
  {
    var t := TrimStart(s);
    var r := TrimEnd(t);
    TrimStartSpec(s);
    TrimEndSpec(t);
    var i := |s| - |t|;
    var j := i + |r|;
    assert r == s[i..j];
    forall k | j <= k < |s| ensures IsSpace(s[k]) {
      assert s[k] == t[k - i];
    }
    assert CutAt(s, i, j, Trim(s));
  }

  /** ASCII `toLowerCase` of one character. */
  function LowerChar(c: char): char {
    if 'A' <= c <= 'Z' then (c as int + 32) as char else c
  }

  /** ASCII `toLowerCase`. */
  function Lower(s: string): (r: string)
    ensures |r| == |s|
  {
    if s == [] then [] else [LowerChar(s[0])] + Lower(s[1..])
  }

  /** `Lower` maps every character through `LowerChar`. */
  lemma {:induction false} LowerAt(s: string, i: nat)
    requires i < |s|
    ensures Lower(s)[i] == LowerChar(s[i])
  {
    if i > 0 {
      LowerAt(s[1..], i - 1);
    }
  }

  /** `s.trim().toLowerCase()`: the key under which colours are compared. */
  function Normalize(s: string): string {
    Lower(Trim(s))
  }

  lemma TrimOfTrimmed(s: string)
    requires s != [] ==> !IsSpace(s[0]) && !IsSpace(s[|s| - 1])
    ensures Trim(s) == s
  {
    if s != [] {
      assert TrimStart(s) == s;
      assert TrimEnd(s) == s;
    }
  }

  lemma LowerCharKeepsSpace(c: char)
    ensures IsSpace(LowerChar(c)) == IsSpace(c)
  {
  }

  /** Lower-casing twice is lower-casing once. */
  lemma {:induction false} LowerTwice(s: string)
    ensures Lower(Lower(s)) == Lower(s)
  {
    if s != [] {
      LowerTwice(s[1..]);
      assert Lower(s)[1..] == Lower(s[1..]);
    }
  }

  /** Normalising a colour key a second time changes nothing. */
  lemma NormalizeIdempotent(s: string)
    ensures Normalize(Normalize(s)) == Normalize(s)
  {
    var t := Trim(s);
    var l := Lower(t);
    TrimSpec(s);
    if l != [] {
      LowerAt(t, 0);
      LowerAt(t, |t| - 1);
      LowerCharKeepsSpace(t[0]);
      LowerCharKeepsSpace(t[|t| - 1]);
    }
    TrimOfTrimmed(l);
    LowerTwice(t);
  }

  predicate IsDigit(c: char) {
    '0' <= c <= '9'
  }

  function DigitChar(d: nat): (c: char)
    requires d < 10
    ensures IsDigit(c)
  {
    (d + 48) as char
  }

  function DigitValue(c: char): (d: nat)
    requires IsDigit(c)
    ensures d < 10 && DigitChar(d) == c
  {
    c as int - 48
  }

  predicate AllDigits(s: string) {
    forall i :: 0 <= i < |s| ==> IsDigit(s[i])
  }

  /** The decimal rendering of `n`, as JavaScript's template literals produce it. */
  function NatToString(n: nat): (s: string)
    ensures s != [] && AllDigits(s)
    ensures |s| > 1 ==> s[0] != '0'
  {
    if n < 10 then [DigitChar(n)] else NatToString(n / 10) + [DigitChar(n % 10)]
  }

  /** The number a string of decimal digits denotes. */
  function DigitsValue(s: string): nat
    requires AllDigits(s)
  {
    if s == [] then 0 else 10 * DigitsValue(s[..|s| - 1]) + DigitValue(s[|s| - 1])
  }

  /** Reading back a rendered number gives the number. */
  lemma {:induction false} NatToStringRoundTrip(n: nat)
    ensures DigitsValue(NatToString(n)) == n
  {
    var s := NatToString(n);
    if n >= 10 {
      NatToStringRoundTrip(n / 10);
      assert s[..|s| - 1] == NatToString(n / 10);
    }
  }

  /** Distinct numbers render as distinct strings. */
  lemma NatToStringInjective(m: nat, n: nat)
    requires NatToString(m) == NatToString(n)
    ensures m == n
  {
    NatToStringRoundTrip(m);
    NatToStringRoundTrip(n);
  }
}
