/** Decimal numerals as the standard library prints and parses them. */
module Decimal {
  import opened Basics

  const I128_MAX: int := 0x7FFF_FFFF_FFFF_FFFF_FFFF_FFFF_FFFF_FFFF

  const ZERO: byte := 48
  const PLUS: byte := 43
  const MINUS: byte := 45

  /** `format!("{n}")` of an unsigned number. */
  function Print(n: nat): (t: Text)
    ensures t != []
    ensures forall i | 0 <= i < |t| :: IsDigit(t[i])
  {
    if n < 10 then [ZERO + n as byte] else Print(n / 10) + [ZERO + (n % 10) as byte]
  }

  function PrintSigned(n: int): (t: Text)
    ensures t != []
    ensures forall i | 0 <= i < |t| :: IsDigit(t[i]) || t[i] == MINUS
  {
    if n < 0 then [MINUS] + Print(-n) else Print(n)
  }

  /** The number written by a run of digits; none when empty or not all digits. */
  function Digits(t: Text): Option<nat> {
    if t == [] || !IsDigit(t[|t| - 1]) then None
    else
      var low := (t[|t| - 1] - ZERO) as nat;
      if |t| == 1 then Some(low)
      else
        match Digits(t[..|t| - 1])
        case None => None
        case Some(high) => Some(10 * high + low)
  }

  /** `str::parse` for an unsigned type whose largest value is `max`: one
      leading plus sign is accepted. */
  function ParseUnsigned(t: Text, max: nat): Option<nat> {
    var digits := if t != [] && t[0] == PLUS then t[1..] else t;
    match Digits(digits)
    case Some(n) => if n <= max then Some(n) else None
    case None => None
  }

  /** `str::parse` for a signed type with values from `-max - 1` to `max`. */
  function ParseSigned(t: Text, max: nat): Option<int> {
    if t != [] && t[0] == MINUS then
      match Digits(t[1..])
      case Some(n) => if n <= max + 1 then Some(-(n as int)) else None
      case None => None
    else
      match ParseUnsigned(t, max)
      case Some(n) => Some(n)
      case None => None
  }

  lemma {:induction false} DigitsOfPrint(n: nat)
    ensures Digits(Print(n)) == Some(n)
  {
    if n >= 10 {
      DigitsOfPrint(n / 10);
      var t := Print(n);
      assert t[..|t| - 1] == Print(n / 10);
    }
  }

  /** Printing then parsing gives the number back. */
  lemma PrintParses(n: nat, max: nat)
    ensures ParseUnsigned(Print(n), max) == if n <= max then Some(n) else None
  {
    DigitsOfPrint(n);
    assert IsDigit(Print(n)[0]);
  }

  lemma PrintSignedParses(n: int, max: nat)
    requires -(max as int) - 1 <= n <= max
    ensures ParseSigned(PrintSigned(n), max) == Some(n)
  {
    if n < 0 {
      DigitsOfPrint(-n);
      assert PrintSigned(n)[1..] == Print(-n);
    } else {
      PrintParses(n, max);
      assert IsDigit(Print(n)[0]);
    }
  }
}
