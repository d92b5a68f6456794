/** Decimal numerals, for readers and printers that undo each other. */
module Decimals {
  import opened Chars
  import opened Options

  predicate AllDigits(t: string) { forall i :: 0 <= i < |t| ==> IsDigit(t[i]) }

  function Number(t: string): nat
    requires AllDigits(t)
  {
    if t == "" then 0 else 10 * Number(t[..|t| - 1]) + (t[|t| - 1] - '0') as nat
  }

  function Decimal(n: nat): (t: string)
    ensures t != "" && AllDigits(t) && Number(t) == n
  {
    if n < 10 then [n as char + '0'] else Decimal(n / 10) + [(n % 10) as char + '0']
  }

  function Numeral(n: int): string {
    if n < 0 then "-" + Decimal(-n) else Decimal(n)
  }

  function ReadNumeral(t: string): Option<int> {
    if t != "" && AllDigits(t) then Some(Number(t))
    else if |t| > 1 && t[0] == '-' && AllDigits(t[1..]) then
      var n: int := Number(t[1..]);
      Some(-n)
    else None
  }

  lemma NumeralReadsBack(n: int)
    ensures ReadNumeral(Numeral(n)) == Some(n)
  {
    if n < 0 {
      assert Numeral(n)[0] == '-' && Numeral(n)[1..] == Decimal(-n);
    }
  }
}
