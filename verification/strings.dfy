/**
 The three string rewrites the collector relies on: replacing one character by
 another everywhere (Python's `str.replace` with one-character arguments),
 keeping the text before the first occurrence of a separator (`s.split(c)[0]`),
 and writing a natural number in decimal (`f"{n}"` for an `int`).
 */
module Strings {

  /** The character `c` after substituting `to` for `from`. */
  function Swap(c: char, from: char, to: char): char {
    if c == from then to else c
  }

  /** `s` with every occurrence of `from` replaced by `to`. */
  function Replace(s: string, from: char, to: char): (r: string)
    ensures |r| == |s|
    ensures forall i :: 0 <= i < |s| ==> r[i] == Swap(s[i], from, to)
    ensures from != to ==> from !in r
  {
    if |s| == 0 then []
    else [Swap(s[0], from, to)] + Replace(s[1..], from, to)
  }

  /** Replacing a character that never occurs changes nothing. */
  lemma ReplaceAbsent(s: string, from: char, to: char)
    requires from !in s
    ensures Replace(s, from, to) == s
  {
    var r := Replace(s, from, to);
    assert forall i :: 0 <= i < |s| ==> r[i] == s[i];
  }

  /** Replacing is undone by the reverse replacement whenever the new character
      did not occur in the original text. */
  lemma ReplaceRoundTrip(s: string, from: char, to: char)
    requires to !in s
    ensures Replace(Replace(s, from, to), to, from) == s
  {
    var r := Replace(s, from, to);
    var back := Replace(r, to, from);
    forall i | 0 <= i < |s|
      ensures back[i] == s[i]
    {
      assert s[i] != to;
    }
  }

  /** The longest prefix of `s` that does not contain `c`: the first field
      of splitting `s` at `c`. */
  function BeforeFirst(s: string, c: char): (r: string)
    ensures r <= s
    ensures c !in r
    ensures |r| < |s| ==> s[|r|] == c
  {
    if |s| == 0 then []
    else if s[0] == c then []
    else [s[0]] + BeforeFirst(s[1..], c)
  }

  /** The three properties of `BeforeFirst` determine it: any prefix free of
      `c` that stops at `c` or at the end is the same text. */
  lemma BeforeFirstUnique(s: string, c: char, p: string)
    requires p <= s
    requires c !in p
    requires |p| < |s| ==> s[|p|] == c
    ensures p == BeforeFirst(s, c)
  {
  }

  /** Cutting an address at a separator recovers the part written before it. */
  lemma BeforeFirstOfJoined(a: string, c: char, z: string)
    requires c !in a
    ensures BeforeFirst(a + [c] + z, c) == a
  {
    BeforeFirstUnique(a + [c] + z, c, a);
  }

  /** Cutting twice cuts no further than cutting once. */
  lemma BeforeFirstIdempotent(s: string, c: char)
    ensures BeforeFirst(BeforeFirst(s, c), c) == BeforeFirst(s, c)
  {
    var r := BeforeFirst(s, c);
    BeforeFirstUnique(r, c, r);
  }

  predicate IsDigit(c: char) {
    '0' <= c <= '9'
  }

  predicate AllDigits(s: string) {
    forall i :: 0 <= i < |s| ==> IsDigit(s[i])
  }

  function DigitChar(d: nat): (c: char)
    requires d < 10
    ensures IsDigit(c)
    ensures c == '0' <==> d == 0
  {
    (d + '0' as int) as char
  }

  function DigitValue(c: char): (d: nat)
    requires IsDigit(c)
    ensures d < 10
  {
    c as int - '0' as int
  }

  /** The decimal numeral of `n`, without sign, padding or leading zeros. */
  function NatToDecimal(n: nat): (s: string)
    ensures 1 <= |s|
    ensures AllDigits(s)
    ensures s[0] == '0' <==> n == 0
    ensures n == 0 ==> s == "0"
  {
    if n < 10 then [DigitChar(n)]
    else NatToDecimal(n / 10) + [DigitChar(n % 10)]
  }

  /** The number a string of decimal digits denotes. */
  function ParseDecimal(s: string): nat
    requires AllDigits(s)
  {
    if |s| == 0 then 0
    else ParseDecimal(s[..|s| - 1]) * 10 + DigitValue(s[|s| - 1])
  }

  /** Reading back the numeral of `n` yields `n`. */
  lemma {:induction false} DecimalRoundTrip(n: nat)
    ensures ParseDecimal(NatToDecimal(n)) == n
  {
    var s := NatToDecimal(n);
    if n < 10 {
      assert s[..|s| - 1] == [];
    } else {
      var t := NatToDecimal(n / 10);
      assert s[..|s| - 1] == t;
      DecimalRoundTrip(n / 10);
    }
  }
}
