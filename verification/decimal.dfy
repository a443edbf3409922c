/** Rust's `str::parse` for the signed integer types, on ASCII input. */
module Decimal {
  import opened Ints
  import opened Wrappers
  import opened Digits

  /** `str::parse` of a signed integer: ASCII digits, optionally after one
      sign. Anything else is an error. */
  function ParseDecimal(s: string): (r: Option<int>)
    ensures r.Some? <==> (1 <= |s| && AllDigits(s)) || (2 <= |s| && (s[0] == '-' || s[0] == '+') && AllDigits(s[1..]))
    ensures r.Some? ==> -(Pow10(|s|) as int) < r.value < Pow10(|s|)
    ensures r.Some? && r.value < 0 ==> s[0] == '-'
  {
    if |s| >= 2 && s[0] == '-' && AllDigits(s[1..]) then Some(0 - Value(s[1..]) as int)
    else if |s| >= 2 && s[0] == '+' && AllDigits(s[1..]) then Some(Value(s[1..]))
    else if |s| >= 1 && AllDigits(s) then Some(Value(s))
    else None
  }

  /** `s.parse::<i8>()`: an error when the number does not fit in 8 bits. */
  function ParseI8(s: string): (r: Option<I8>)
    ensures r.Some? <==> ParseDecimal(s).Some? && -0x80 <= ParseDecimal(s).value < 0x80
    ensures r.Some? ==> r.value == ParseDecimal(s).value
  {
    match ParseDecimal(s)
    case Some(v) => if -0x80 <= v < 0x80 then Some(v) else None
    case None => None
  }

  /** `s.parse::<i64>()`. */
  function ParseI64(s: string): (r: Option<I64>)
    ensures r.Some? <==> ParseDecimal(s).Some? && -0x8000_0000_0000_0000 <= ParseDecimal(s).value < 0x8000_0000_0000_0000
    ensures r.Some? ==> r.value == ParseDecimal(s).value
  {
    match ParseDecimal(s)
    case Some(v) => if -0x8000_0000_0000_0000 <= v < 0x8000_0000_0000_0000 then Some(v) else None
    case None => None
  }

  /** `s.parse::<i32>()`. */
  function ParseI32(s: string): (r: Option<I32>)
    ensures r.Some? <==> ParseDecimal(s).Some? && -0x8000_0000 <= ParseDecimal(s).value < 0x8000_0000
    ensures r.Some? ==> r.value == ParseDecimal(s).value
  {
    match ParseDecimal(s)
    case Some(v) => if -0x8000_0000 <= v < 0x8000_0000 then Some(v) else None
    case None => None
  }

  lemma {:induction false} PowMonotone(a: nat, b: nat)
    requires a <= b
    ensures Pow10(a) <= Pow10(b)
    decreases b
  {
    if a < b {
      PowMonotone(a, b - 1);
    }
  }

  /** A non-empty digit string parses to its value, and the value stays below
      10 to the power of its length. */
  lemma ParseDigits(s: string)
    requires 1 <= |s| && AllDigits(s)
    ensures ParseDecimal(s) == Some(Value(s))
  {
  }
}
