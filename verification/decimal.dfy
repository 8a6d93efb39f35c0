/** Decimal rendering of natural numbers, as Rust's `Display` for unsigned
    integers prints them (`format!("{}", n)`): the shortest string of ASCII
    digits, with no sign and no leading zero. `StringToNat` and `ReadNat` are
    its inverses. */
module Decimal {
  import opened Options

  predicate IsDigit(c: char) {
    '0' <= c <= '9'
  }

  predicate AllDigits(s: string) {
    forall i :: 0 <= i < |s| ==> IsDigit(s[i])
  }

  function DigitChar(d: nat): (c: char)
    requires d < 10
    ensures IsDigit(c)
  {
    (48 + d) as char
  }

  function DigitValue(c: char): (d: nat)
    requires IsDigit(c)
    ensures d < 10
    ensures DigitChar(d) == c
  {
    c as int - 48
  }

  /** The decimal rendering of `n`. */
  function NatToString(n: nat): (s: string)
    ensures |s| >= 1
    ensures AllDigits(s)
    ensures s[0] == '0' <==> n == 0
    ensures s[0] == '0' ==> |s| == 1
    decreases n
  {
    if n < 10 then [DigitChar(n)] else NatToString(n / 10) + [DigitChar(n % 10)]
  }

  /** The value of a string of digits, most significant digit first. */
  function StringToNat(s: string): nat
    requires AllDigits(s)
    decreases |s|
  {
    if |s| == 0 then 0 else 10 * StringToNat(s[..|s| - 1]) + DigitValue(s[|s| - 1])
  }

  lemma {:induction false} StringToNatOfRendering(n: nat)
    ensures StringToNat(NatToString(n)) == n
    decreases n
  {
    if n >= 10 {
      var s := NatToString(n);
      StringToNatOfRendering(n / 10);
      assert s[..|s| - 1] == NatToString(n / 10);
    }
  }

  lemma NatToStringInjective(m: nat, n: nat)
    ensures NatToString(m) == NatToString(n) <==> m == n
  {
    if NatToString(m) == NatToString(n) {
      StringToNatOfRendering(m);
      StringToNatOfRendering(n);
    }
  }

  /** The length of the longest prefix of `s` made of digits. */
  function DigitRun(s: string): (k: nat)
    ensures k <= |s|
    ensures AllDigits(s[..k])
    ensures k < |s| ==> !IsDigit(s[k])
    decreases |s|
  {
    if |s| == 0 || !IsDigit(s[0]) then 0 else 1 + DigitRun(s[1..])
  }

  /** Reads a non-empty run of digits from the front of `s`, returning its
      value and the rest of the text. */
  function ReadNat(s: string): (r: Option<(nat, string)>)
    ensures r.Some? ==> |r.value.1| < |s|
  {
    var k := DigitRun(s);
    if k == 0 then None else Some((StringToNat(s[..k]), s[k..]))
  }

  /** A digit run followed by a non-digit (or by nothing) is read to its end. */
  lemma {:induction false} DigitRunOfDigitsThen(d: string, rest: string)
    requires AllDigits(d)
    requires rest == [] || !IsDigit(rest[0])
    ensures DigitRun(d + rest) == |d|
    decreases |d|
  {
    if |d| > 0 {
      assert (d + rest)[1..] == d[1..] + rest;
      DigitRunOfDigitsThen(d[1..], rest);
    }
  }

  lemma ReadNatOfRendering(n: nat, rest: string)
    requires rest == [] || !IsDigit(rest[0])
    ensures ReadNat(NatToString(n) + rest) == Some((n, rest))
  {
    var d := NatToString(n);
    var s := d + rest;
    DigitRunOfDigitsThen(d, rest);
    assert s[..|d|] == d;
    assert s[|d|..] == rest;
    StringToNatOfRendering(n);
  }
}
