/** Numbers written out in decimal digits. */
module Decimals {

  function Digit(d: nat): char
    requires d < 10
  {
    ('0' as int + d) as char
  }

  predicate IsDigit(c: char) { '0' <= c <= '9' }

  function DigitValue(c: char): nat
    requires IsDigit(c)
  {
    c as int - '0' as int
  }

  function Decimal(n: nat): string {
    if n < 10 then [Digit(n)] else Decimal(n / 10) + [Digit(n % 10)]
  }

  ghost predicate AllDigits(s: string) { forall i :: 0 <= i < |s| ==> IsDigit(s[i]) }

  function Value(s: string): nat {
    if s == [] then 0
    else
      var c := s[|s| - 1];
      10 * Value(s[..|s| - 1]) + if IsDigit(c) then DigitValue(c) else 0
  }

  /** Reading a number back. */
  lemma {:induction false} DecimalValue(n: nat)
    ensures Decimal(n) != [] && AllDigits(Decimal(n)) && Value(Decimal(n)) == n
  {
    if n < 10 {
      assert [Digit(n)][..0] == [];
    } else {
      DecimalValue(n / 10);
      var s := Decimal(n / 10);
      assert (s + [Digit(n % 10)])[..|s|] == s;
    }
  }

  // How many digits a text starts with.
  function DigitRun(s: string): (n: nat)
    ensures n <= |s|
  {
    if s == [] || !IsDigit(s[0]) then 0 else 1 + DigitRun(s[1..])
  }

  lemma {:induction false} DigitRunEnds(s: string, rest: string)
    requires AllDigits(s) && (rest != [] ==> !IsDigit(rest[0]))
    ensures DigitRun(s + rest) == |s|
  {
    if s == [] {
      assert s + rest == rest;
    } else {
      assert (s + rest)[1..] == s[1..] + rest;
      DigitRunEnds(s[1..], rest);
    }
  }

  // Digits filled up with zeros on the left, to a width of four.
  function Padded(n: nat): string {
    var s := Decimal(n);
    (if |s| < 4 then seq(4 - |s|, _ => '0') else "") + s
  }

  lemma {:induction false} LeadingZeros(z: string, s: string)
    requires forall i :: 0 <= i < |z| ==> z[i] == '0'
    ensures Value(z + s) == Value(s)
    decreases |z| + |s|
  {
    if s == "" {
      assert z + s == z;
      if z != "" {
        LeadingZeros(z[..|z| - 1], s);
        assert z[..|z| - 1] + s == z[..|z| - 1];
      }
    } else {
      var n := |s| - 1;
      assert (z + s)[..|z + s| - 1] == z + s[..n];
      LeadingZeros(z, s[..n]);
    }
  }

  lemma PaddedValue(n: nat)
    ensures Value(Padded(n)) == n && AllDigits(Padded(n)) && Padded(n) != ""
  {
    DecimalValue(n);
    var s := Decimal(n);
    var z := if |s| < 4 then seq(4 - |s|, _ => '0') else "";
    assert Padded(n) == z + s;
    LeadingZeros(z, s);
  }

  /** Names that are all different and all in use are no more than the names in use. */
  lemma {:induction false} Pigeonhole(f: nat -> string, n: nat, used: set<string>)
    requires forall j :: 0 <= j < n ==> f(j) in used
    requires forall i, j :: 0 <= i < j < n ==> f(i) != f(j)
    ensures n <= |used|
    decreases n
  {
    if n > 0 {
      Pigeonhole(f, n - 1, used - {f(n - 1)});
    }
  }
}
