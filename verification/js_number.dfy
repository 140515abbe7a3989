/** JavaScript's `Number(s)` on the strings a `<select>` of ids yields:
    decimal digit strings. The empty string converts to 0; any other
    string is treated as not a number. */
module JsNumber {
  import opened Common

  datatype Number = Num(n: nat) | NaN

  predicate AllDigits(s: string) {
    forall i :: 0 <= i < |s| ==> IsDigit(s[i])
  }

  function DigitValue(c: char): nat
    requires IsDigit(c)
  {
    c as int - '0' as int
  }

  /** The value of a string of decimal digits, most significant first. */
  function DecimalValue(s: string): nat
    requires AllDigits(s)
  {
    if |s| == 0 then 0 else 10 * DecimalValue(s[..|s| - 1]) + DigitValue(s[|s| - 1])
  }

  /** `Number(s)`. */
  function ToNumber(s: string): (r: Number)
    ensures r.NaN? <==> !AllDigits(s)
    ensures s == "" ==> r == Num(0)
  {
    if AllDigits(s) then Num(DecimalValue(s)) else NaN
  }

  function DigitChar(d: nat): (c: char)
    requires d < 10
    ensures IsDigit(c) && DigitValue(c) == d
  {
    ('0' as int + d) as char
  }

  /** `String(n)` for a non-negative integer: its decimal digits. */
  function ToDecimal(n: nat): (s: string)
    ensures |s| > 0 && AllDigits(s)
  {
    if n < 10 then [DigitChar(n)] else ToDecimal(n / 10) + [DigitChar(n % 10)]
  }

  /** Converting the text of an id back gives the id: an option whose
      value is `String(id)` submits that very id. */
  lemma {:induction false} ToNumberOfDecimal(n: nat)
    ensures ToNumber(ToDecimal(n)) == Num(n)
  {
    DecimalOfDecimal(n);
  }

  lemma {:induction false} DecimalOfDecimal(n: nat)
    ensures DecimalValue(ToDecimal(n)) == n
  {
    var s := ToDecimal(n);
    if n >= 10 {
      DecimalOfDecimal(n / 10);
      assert s[..|s| - 1] == ToDecimal(n / 10);
    }
  }
}
