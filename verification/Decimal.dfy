/** Printing numbers in decimal and reading them back in a given base. */
module Decimal {
  import opened Prelude

  const HEX := "0123456789abcdef"

  /** `%d` for a number that is not negative. */
  function Dec(n: nat): string {
    if n < 10 then [HEX[n]] else Dec(n / 10) + [HEX[n % 10]]
  }

  /** `%d` for any integer. */
  function DecInt(n: int): string {
    if n < 0 then "-" + Dec(-n) else Dec(n)
  }

  function DigitOf(c: char): nat {
    if '0' <= c <= '9' then c as int - '0' as int
    else if 'a' <= c <= 'f' then c as int - 'a' as int + 10
    else 16
  }

  predicate AreDigits(s: string, base: nat) {
    forall i :: 0 <= i < |s| ==> DigitOf(s[i]) < base
  }

  function ValueOf(s: string, base: nat): nat {
    if s == "" then 0
    else ValueOf(s[..|s| - 1], base) * base + DigitOf(s[|s| - 1])
  }

  /** Reads an unsigned number; anything but a non-empty run of digits fails. */
  function Parse(s: string, base: nat): Option<nat> {
    if s != "" && AreDigits(s, base) then Some(ValueOf(s, base)) else None
  }

  /** The number one gets when a decimal print of `n` is read in base 16. */
  function HexRead(n: nat): nat {
    (if n < 10 then 0 else HexRead(n / 10)) * 16 + n % 10
  }

  lemma HexDigit(d: nat)
    requires d < 10
    ensures '0' <= HEX[d] <= '9' && DigitOf(HEX[d]) == d
  {
  }

  /** A printed number is a non-empty run of decimal digits. */
  lemma {:induction false} DecIsDigits(n: nat)
    ensures Dec(n) != ""
    ensures forall i :: 0 <= i < |Dec(n)| ==> '0' <= Dec(n)[i] <= '9'
  {
    HexDigit(n % 10);
    if n >= 10 {
      var before := Dec(n / 10);
      DecIsDigits(n / 10);
      assert Dec(n) == before + [HEX[n % 10]];
      hide Dec;
    }
  }

  lemma ValueOfLast(s: string, c: char, base: nat)
    ensures ValueOf(s + [c], base) == ValueOf(s, base) * base + DigitOf(c)
  {
    assert (s + [c])[..|s|] == s;
  }

  lemma {:induction false} DecValue(n: nat)
    ensures ValueOf(Dec(n), 10) == n
    ensures ValueOf(Dec(n), 16) == HexRead(n)
  {
    var d := n % 10;
    var before := if n < 10 then "" else Dec(n / 10);
    var hex := if n < 10 then 0 else HexRead(n / 10);
    HexDigit(d);
    assert Dec(n) == before + [HEX[d]] && HexRead(n) == hex * 16 + d;
    ValueOfLast(before, HEX[d], 10);
    ValueOfLast(before, HEX[d], 16);
    if n >= 10 {
      DecValue(n / 10);
    }
    assert ValueOf(before, 10) == n / 10 && ValueOf(before, 16) == hex;
    hide *;
    assert n == n / 10 * 10 + d;
  }

  /** Reading a printed number gives that number back. */
  lemma RoundTrip(n: nat)
    ensures Parse(Dec(n), 10) == Some(n)
  {
    DecIsDigits(n);
    DecValue(n);
  }

  /** Reading a decimal print in base 16 succeeds and gives HexRead. */
  lemma HexParse(n: nat)
    ensures Parse(Dec(n), 16) == Some(HexRead(n))
  {
    DecIsDigits(n);
    DecValue(n);
  }

  lemma DecInjective(a: nat, b: nat)
    ensures Dec(a) == Dec(b) <==> a == b
  {
    DecValue(a);
    DecValue(b);
  }

  /** Reading decimal prints in base 16 keeps the order, so distinct numbers stay distinct. */
  lemma {:induction false} HexReadMonotone(a: nat, b: nat)
    requires a < b
    ensures HexRead(a) < HexRead(b)
  {
    if a < 10 {
      if b >= 10 { HexReadPositive(b / 10); }
    } else if a / 10 < b / 10 {
      HexReadMonotone(a / 10, b / 10);
    }
  }

  lemma {:induction false} HexReadPositive(n: nat)
    requires n > 0
    ensures HexRead(n) > 0
  {
    if n >= 10 {
      HexReadPositive(n / 10);
    }
  }

  /** A decimal print read in base 16 fits 16 bits exactly up to 9999. */
  lemma HexReadFits(n: nat)
    ensures HexRead(n) < 0x1_0000 <==> n <= 9999
  {
    HexReadOfTwo(9, 9);
    HexReadLast(99, 9);
    HexReadLast(999, 9);
    HexReadOfTwo(1, 0);
    HexReadLast(10, 0);
    HexReadLast(100, 0);
    HexReadLast(1000, 0);
    hide HexRead;
    if n < 9999 { HexReadMonotone(n, 9999); }
    if n > 10000 { HexReadMonotone(10000, n); }
  }

  lemma HexReadLast(n: nat, d: nat)
    requires n > 0 && d < 10
    ensures HexRead(10 * n + d) == HexRead(n) * 16 + d
  {
    assert (10 * n + d) / 10 == n && (10 * n + d) % 10 == d;
  }

  lemma HexReadOfTwo(c: nat, d: nat)
    requires 0 < c < 10 && d < 10
    ensures HexRead(10 * c + d) == c * 16 + d
  {
    HexReadLast(c, d);
    assert HexRead(c) == c;
  }

  /** Rounding of a number that is not negative to the nearest integer, ties going to the even one. */
  function RoundHalfEven(x: real): nat
    requires x >= 0.0
  {
    var low := x.Floor;
    var rest := x - low as real;
    if rest < 0.5 || (rest == 0.5 && low % 2 == 0) then low else low + 1
  }

  /** The integer is at most half away from the number, and even if it is half away. */
  predicate IsNearest(n: int, x: real) {
    -0.5 <= n as real - x <= 0.5 && (n as real - x == 0.5 || n as real - x == -0.5 ==> n % 2 == 0)
  }

  lemma RoundIsNearest(x: real)
    requires x >= 0.0
    ensures IsNearest(RoundHalfEven(x), x)
  {
  }

  lemma NearestIsUnique(m: int, n: int, x: real)
    requires IsNearest(m, x) && IsNearest(n, x)
    ensures m == n
  {
  }

  /** `%.2f` of `h` hundredths. */
  function PrintHundredths(h: nat): string {
    Dec(h / 100) + "." + [HEX[h / 10 % 10], HEX[h % 10]]
  }
}
