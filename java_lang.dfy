/**
 * The few pieces of the Java runtime the controller relies on: nullable
 * values, the two exceptions that can escape its code paths, the 32-bit
 * `int` range, and `Integer.parseInt` / `Integer.toString` on decimal text.
 */
module JavaLang {

  /** A Java reference that may be `null`. */
  datatype Option<T> = None | Some(value: T) {
    function GetOr(default: T): T {
      match this
      case Some(v) => v
      case None => default
    }
  }

  /** The unchecked exceptions that can escape the modelled code. */
  datatype Fault = NullPointer | NumberFormat

  /** A value, or the exception thrown instead of returning it. */
  datatype Result<T> = Ok(value: T) | Err(fault: Fault)

  /** How a `void` call ended: normally, or by an escaping exception. */
  datatype Outcome = Completed | Crashed(fault: Fault)

  const INT_MIN: int := -0x8000_0000
  const INT_MAX: int := 0x7FFF_FFFF

  predicate InInt32(n: int) {
    INT_MIN <= n <= INT_MAX
  }

  /** The value a Java `int` expression takes after two's-complement wrap-around. */
  function Wrap32(n: int): (r: int)
    ensures InInt32(r)
    ensures (r - n) % 0x1_0000_0000 == 0
    ensures InInt32(n) ==> r == n
  {
    var m := n % 0x1_0000_0000;
    if m <= INT_MAX then m else m - 0x1_0000_0000
  }

  predicate IsDigit(c: char) {
    '0' <= c <= '9'
  }

  predicate AllDigits(s: string) {
    forall i | 0 <= i < |s| :: IsDigit(s[i])
  }

  function DigitOf(d: int): (c: char)
    requires 0 <= d < 10
    ensures IsDigit(c) && c as int - '0' as int == d
  {
    ('0' as int + d) as char
  }

  /** The number a string of decimal digits denotes, most significant digit first. */
  function DigitsValue(s: string): nat
    requires AllDigits(s)
  {
    if s == [] then 0 else DigitsValue(s[..|s| - 1]) * 10 + (s[|s| - 1] as int - '0' as int)
  }

  /**
   * `Integer.parseInt(s)`: an optional sign, at least one decimal digit, and
   * a value inside the `int` range; anything else throws
   * NumberFormatException, modelled as `None`.
   */
  function ParseInt(s: string): (r: Option<int>)
    ensures r.Some? ==> InInt32(r.value)
    ensures r.Some? ==> |s| > 0 && (IsDigit(s[0]) || s[0] == '-' || s[0] == '+')
    ensures s == [] || s == "-" || s == "+" ==> r == None
    ensures s != [] && !AllDigits(if s[0] == '-' || s[0] == '+' then s[1..] else s) ==> r == None
    // unsigned and '+'-signed digits: their value, unless it is above INT_MAX
    ensures s != [] && AllDigits(s) ==>
      r == if DigitsValue(s) <= INT_MAX then Some(DigitsValue(s)) else None
    ensures |s| > 1 && s[0] == '+' && AllDigits(s[1..]) ==>
      r == if DigitsValue(s[1..]) <= INT_MAX then Some(DigitsValue(s[1..])) else None
    // '-'-signed digits: the negated value, unless it is below INT_MIN
    ensures |s| > 1 && s[0] == '-' && AllDigits(s[1..]) ==>
      r == if DigitsValue(s[1..]) <= -INT_MIN then Some(-(DigitsValue(s[1..]) as int)) else None
  {
    if s == [] then None
    else
      var digits := if s[0] == '-' || s[0] == '+' then s[1..] else s;
      if digits == [] || !AllDigits(digits) then None
      else
        var v: int := if s[0] == '-' then -(DigitsValue(digits) as int) else DigitsValue(digits);
        if InInt32(v) then Some(v) else None
  }

  /** Decimal text of a natural number, without leading zeros. */
  function NatToString(n: nat): (s: string)
    ensures |s| > 0 && AllDigits(s)
    ensures DigitsValue(s) == n
    ensures |s| > 1 ==> s[0] != '0'
    decreases n
  {
    if n < 10 then [DigitOf(n)]
    else
      var front := NatToString(n / 10);
      var s := front + [DigitOf(n % 10)];
      assert s[..|s| - 1] == front;
      s
  }

  /** `Integer.toString(n)`: a minus sign for negative values, then the digits of the magnitude. */
  function IntToString(n: int): (s: string)
    ensures |s| > 0
    ensures InInt32(n) ==> ParseInt(s) == Some(n)
  {
    if n < 0 then "-" + NatToString(-n) else NatToString(n)
  }
}
