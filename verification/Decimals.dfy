/** Decimal numbers as printf("%d") writes and sscanf("%d") reads them. */
module Decimals {

  function Digit(d: nat): (c: char)
    requires d < 10
    ensures IsDigit(c) && DigitValue(c) == d
  {
    ('0' as int + d) as char
  }

  predicate IsDigit(c: char) {
    '0' <= c <= '9'
  }

  function DigitValue(c: char): (d: nat)
    requires IsDigit(c)
    ensures d < 10
  {
    c as int - '0' as int
  }

  predicate IsSpace(c: char) {
    c == ' ' || 9 <= c as int <= 13
  }

  function Decimal(n: nat): (s: string)
    ensures s != "" && forall c <- s :: IsDigit(c)
  {
    if n < 10 then [Digit(n)] else Decimal(n / 10) + [Digit(n % 10)]
  }

  function PrintInt(n: int): (s: string)
    ensures s != "" && forall c <- s :: IsDigit(c) || c == '-'
  {
    if n < 0 then "-" + Decimal(-n) else Decimal(n)
  }

  function ScanDigits(s: string, acc: nat): nat {
    if s == "" || !IsDigit(s[0]) then acc else ScanDigits(s[1..], 10 * acc + DigitValue(s[0]))
  }

  /** What sscanf("%d") stores, and 0 where it stores nothing. */
  function ScanInt(s: string): int {
    if s == "" then 0
    else if IsSpace(s[0]) then ScanInt(s[1..])
    else if s[0] == '-' then 0 - ScanDigits(s[1..], 0)
    else if s[0] == '+' then ScanDigits(s[1..], 0)
    else ScanDigits(s, 0)
  }

  lemma {:induction false} ScanDecimal(n: nat, rest: string)
    ensures ScanDigits(Decimal(n) + rest, 0) == ScanDigits(rest, n)
  {
    if n < 10 {
      assert ([Digit(n)] + rest)[1..] == rest;
    } else {
      var last := [Digit(n % 10)] + rest;
      assert Decimal(n) + rest == Decimal(n / 10) + last;
      ScanDecimal(n / 10, last);
      assert last[1..] == rest;
    }
  }

  lemma ScanPrintedHere(n: int, rest: string)
    requires rest == "" || !IsDigit(rest[0])
    ensures ScanInt(PrintInt(n) + rest) == n
  {
    hide Decimal;
    var m := if n < 0 then -n else n;
    ScanDecimal(m, rest);
    var s := Decimal(m) + rest;
    assert s[0] == Decimal(m)[0] && Decimal(m)[0] in Decimal(m);
    if n < 0 {
      assert "-" + Decimal(m) + rest == "-" + s;
      assert ("-" + s)[1..] == s;
    }
  }

  /** Reading back a printed number, behind blanks and before anything but a digit. */
  lemma {:induction false} ScanPrinted(blanks: string, n: int, rest: string)
    requires forall c <- blanks :: c in " \t\n\r" || c as int == 11 || c as int == 12
    requires rest == "" || !IsDigit(rest[0])
    ensures ScanInt(blanks + PrintInt(n) + rest) == n
    decreases |blanks|
  {
    hide PrintInt, ScanDigits;
    var s := blanks + PrintInt(n) + rest;
    if blanks == "" {
      ScanPrintedHere(n, rest);
      assert s == PrintInt(n) + rest;
    } else {
      assert s[0] == blanks[0] && blanks[0] in blanks;
      assert s[1..] == blanks[1..] + PrintInt(n) + rest;
      ScanPrinted(blanks[1..], n, rest);
    }
  }

  /** A plus sign is taken, and what begins neither with a blank nor a sign nor a digit is no number. */
  lemma ScanOther(n: nat, rest: string, other: string)
    requires rest == "" || !('0' <= rest[0] <= '9')
    requires other == "" || !('0' <= other[0] <= '9' || other[0] in " \t\n\r+-" || 11 <= other[0] as int <= 12)
    ensures ScanInt("+" + (Decimal(n) + rest)) == n && ScanInt(other) == 0
  {
    ScanDecimal(n, rest);
    hide Decimal;
    assert ("+" + (Decimal(n) + rest))[1..] == Decimal(n) + rest;
  }
}
