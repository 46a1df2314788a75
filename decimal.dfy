/**
 * Decimal integers: printing them as TexturePacker writes them, and reading
 * the `\d+` and `-?\d+` captures back with `parseInt`.
 */
module Decimal {
  import opened Results
  import opened Text

  function DigitValue(c: char): nat
    requires IsDigit(c)
  {
    c as int - '0' as int
  }

  function DigitChar(d: nat): (c: char)
    requires d < 10
    ensures IsDigit(c) && DigitValue(c) == d
  {
    ('0' as int + d) as char
  }

  /** The value of a string of decimal digits (`parseInt` on a `\d+` capture). */
  function DigitsValue(s: string): nat
    requires AllDigits(s)
  {
    if s == [] then 0 else 10 * DigitsValue(s[..|s| - 1]) + DigitValue(s[|s| - 1])
  }

  /** The shortest decimal numeral of `n`. */
  function NatStr(n: nat): (r: string)
    ensures r != [] && AllDigits(r)
  {
    if n < 10 then [DigitChar(n)] else NatStr(n / 10) + [DigitChar(n % 10)]
  }

  /** A signed decimal numeral, with a leading `-` only for negative values. */
  function IntStr(n: int): (r: string)
    ensures r != [] && !IsSpace(r[0]) && !IsSpace(r[|r| - 1])
  {
    if n < 0 then "-" + NatStr(-n) else NatStr(n)
  }

  lemma {:induction false} NatStrRoundTrip(n: nat)
    ensures DigitsValue(NatStr(n)) == n
  {
    if n >= 10 {
      var s := NatStr(n);
      assert s[..|s| - 1] == NatStr(n / 10);
      NatStrRoundTrip(n / 10);
    }
  }

  /** The length of the run of digits that starts the string. */
  function DigitRun(s: string): (n: nat)
    ensures n <= |s| && AllDigits(s[..n])
    ensures n == |s| || !IsDigit(s[n])
  {
    if s != [] && IsDigit(s[0]) then
      var m := DigitRun(s[1..]);
      assert s[..1 + m] == [s[0]] + s[1..][..m];
      1 + m
    else 0
  }

  /** Greedy `\d+` at the start of `s`: its `parseInt` value and the text after it. */
  function UInt(s: string): (r: Option<(nat, string)>)
    ensures r.Some? ==> |r.value.1| < |s| && s[|s| - |r.value.1|..] == r.value.1
  {
    var n := DigitRun(s);
    if n == 0 then None else Some((DigitsValue(s[..n]), s[n..]))
  }

  /** Greedy `-?\d+` at the start of `s`: its `parseInt` value and the text after it. */
  function SInt(s: string): (r: Option<(int, string)>)
  {
    if s != [] && s[0] == '-' then
      match UInt(s[1..])
      case Some((v, rest)) => Some((-(v as int), rest))
      case None => None
    else
      match UInt(s)
      case Some((v, rest)) => Some((v as int, rest))
      case None => None
  }

  lemma {:induction false} DigitRunOver(d: string, t: string)
    requires AllDigits(d)
    requires t == [] || !IsDigit(t[0])
    ensures DigitRun(d + t) == |d|
    decreases |d|
  {
    if d != [] {
      assert (d + t)[1..] == d[1..] + t;
      DigitRunOver(d[1..], t);
    } else {
      assert d + t == t;
    }
  }

  /** `\d+` reads a printed natural back exactly and stops where the numeral ends. */
  lemma UIntReadsNatStr(n: nat, t: string)
    requires t == [] || !IsDigit(t[0])
    ensures UInt(NatStr(n) + t) == Some((n, t))
  {
    var d := NatStr(n);
    DigitRunOver(d, t);
    assert (d + t)[..|d|] == d;
    assert (d + t)[|d|..] == t;
    NatStrRoundTrip(n);
  }

  /** `-?\d+` reads a printed integer back exactly, sign included. */
  lemma SIntReadsIntStr(n: int, t: string)
    requires t == [] || !IsDigit(t[0])
    ensures SInt(IntStr(n) + t) == Some((n, t))
  {
    if n < 0 {
      assert IntStr(n) == "-" + NatStr(-n);
      ConcatAssoc("-", NatStr(-n), t);
      SIntReadsNegative(-n, t);
    } else {
      SIntReadsNatural(n, t);
    }
  }

  lemma SIntReadsNegative(m: nat, t: string)
    requires t == [] || !IsDigit(t[0])
    ensures SInt("-" + (NatStr(m) + t)) == Some((-(m as int), t))
  {
    UIntReadsNatStr(m, t);
    SIntMinus(NatStr(m) + t, m, t);
  }

  /** A minus sign before a run of digits negates its value. */
  lemma SIntMinus(rest: string, v: nat, after: string)
    requires UInt(rest) == Some((v, after))
    ensures SInt("-" + rest) == Some((-(v as int), after))
  {
    assert ("-" + rest)[1..] == rest;
  }

  lemma SIntReadsNatural(m: nat, t: string)
    requires t == [] || !IsDigit(t[0])
    ensures SInt(NatStr(m) + t) == Some((m as int, t))
  {
    UIntReadsNatStr(m, t);
    assert (NatStr(m) + t)[0] == NatStr(m)[0];
  }
}
