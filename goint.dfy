/** Go's int64 arithmetic and strconv.ParseInt, on unbounded integers. */
module GoInt {
  import opened Wrappers

  const TwoTo63: int := 0x8000_0000_0000_0000
  const TwoTo64: int := 0x1_0000_0000_0000_0000

  predicate InInt64(x: int) { -TwoTo63 <= x < TwoTo63 }

  /** The int64 value Go computes for an exact result x: x reduced modulo 2^64 into the signed range. */
  function Wrap64(x: int): (r: int)
    ensures InInt64(r)
    ensures (x - r) % TwoTo64 == 0
  {
    var m := x % TwoTo64;
    if m >= TwoTo63 then m - TwoTo64 else m
  }

  /** Wrapping changes nothing when the exact result fits. */
  lemma Wrap64Id(x: int)
    requires InInt64(x)
    ensures Wrap64(x) == x
  {
    if x < 0 {
      assert (x + TwoTo64) % TwoTo64 == x + TwoTo64;
      assert x % TwoTo64 == (x + TwoTo64) % TwoTo64;
    }
  }

  predicate IsDigit(c: char) { '0' <= c <= '9' }

  /** The value of a string of decimal digits. */
  function DigitsValue(s: string): (v: nat)
    requires forall i :: 0 <= i < |s| ==> IsDigit(s[i])
    decreases |s|
  {
    if s == [] then 0 else assert IsDigit(s[|s| - 1]); DigitsValue(s[..|s| - 1]) * 10 + (s[|s| - 1] as int - '0' as int)
  }

  /** Decimal digits only, at least one. */
  predicate AllDigits(s: string) { s != [] && forall i :: 0 <= i < |s| ==> IsDigit(s[i]) }

  /**
   * strconv.ParseInt(s, 10, 64): an optional sign and at least one decimal digit,
   * with a value in the int64 range; anything else is an error.
   */
  function ParseInt(s: string): (r: Option<int>)
    ensures r.Some? ==> InInt64(r.value)
  {
    if s == [] then None
    else
      var neg := s[0] == '-';
      var digits := if s[0] == '-' || s[0] == '+' then s[1..] else s;
      if !AllDigits(digits) then None
      else
        var v: int := if neg then 0 - DigitsValue(digits) as int else DigitsValue(digits);
        if InInt64(v) then Some(v) else None
  }

  /** Digits without a sign parse to their value when it fits. */
  lemma ParseIntDigits(s: string)
    requires AllDigits(s) && DigitsValue(s) < TwoTo63
    ensures ParseInt(s) == Some(DigitsValue(s))
  {
  }

  /** The decimal digits of n, most significant first, with no leading zero (strconv.Itoa on a natural). */
  function FormatNat(n: nat): (s: string)
    ensures AllDigits(s) && DigitsValue(s) == n
    ensures s[0] == '0' ==> n == 0
    decreases n
  {
    if n < 10 then [('0' as int + n) as char]
    else
      var p := FormatNat(n / 10);
      var s := p + [('0' as int + n % 10) as char];
      assert s[..|s| - 1] == p;
      s
  }

  /** fmt's %d: a minus sign for negative numbers, then the digits of the magnitude. */
  function FormatInt(n: int): string {
    if n < 0 then "-" + FormatNat(-n) else FormatNat(n)
  }

  /** strconv.ParseInt reads back what %d writes. */
  lemma FormatIntRoundTrip(n: int)
    requires InInt64(n)
    ensures ParseInt(FormatInt(n)) == Some(n)
  {
    var s := FormatInt(n);
    if n < 0 {
      assert s[0] == '-' && s[1..] == FormatNat(-n);
    } else {
      assert IsDigit(s[0]);
    }
  }
}
