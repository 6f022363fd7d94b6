/** Go's 64-bit signed integers and the strconv parsers the handlers call.
    Dafny's `int` is unbounded, so the two's-complement wrap-around of Go's
    int64 arithmetic is written out here. */
module GoInt {
  import opened Text

  const TwoTo63: int := 0x8000_0000_0000_0000
  const TwoTo64: int := 0x1_0000_0000_0000_0000
  const MinInt64: int := -TwoTo63
  const MaxInt64: int := TwoTo63 - 1

  predicate IsInt64(x: int) {
    MinInt64 <= x <= MaxInt64
  }

  /** The int64 that Go's wrapping arithmetic yields for the exact result `x`. */
  function Wrap64(x: int): (r: int)
    ensures IsInt64(r)
    ensures (r - x) % TwoTo64 == 0
    ensures IsInt64(x) ==> r == x
  {
    (x - MinInt64) % TwoTo64 + MinInt64
  }

  /** What strconv.ParseInt(s, 10, 64) reports. */
  datatype Parsed = Value(n: int) | SyntaxError | RangeError(clamped: int)

  /** The digits after an optional leading sign. */
  function Unsigned(s: string): string {
    if |s| > 0 && (s[0] == '+' || s[0] == '-') then s[1..] else s
  }

  predicate Negative(s: string) {
    |s| > 0 && s[0] == '-'
  }

  /** strconv.ParseInt(s, 10, 64): an optional sign and at least one ASCII digit;
      no underscores or base prefixes with an explicit base of 10. Values outside
      int64 are range errors carrying the clamped bound. */
  function ParseInt(s: string): (p: Parsed)
    ensures p.Value? ==> IsInt64(p.n)
    ensures p.SyntaxError? <==> (|Unsigned(s)| == 0 || !AllDigits(Unsigned(s)))
  {
    var body := Unsigned(s);
    if |body| == 0 || !AllDigits(body) then SyntaxError
    else
      var mag := DigitsValue(body);
      var v: int := if Negative(s) then -(mag as int) else mag as int;
      if v > MaxInt64 then RangeError(MaxInt64)
      else if v < MinInt64 then RangeError(MinInt64)
      else Value(v)
  }

  /** The number strconv.Atoi hands back, whatever its error: 0 on a syntax
      error, the clamped bound on a range error. */
  function AtoiValue(s: string): (n: int)
    ensures IsInt64(n)
    ensures ParseInt(s).SyntaxError? ==> n == 0
  {
    match ParseInt(s)
    case Value(v) => v
    case SyntaxError => 0
    case RangeError(c) => c
  }

  /** Decimal spellings of int64 values parse back to the value. */
  lemma ParseDecimal(n: nat)
    requires n <= MaxInt64
    ensures ParseInt(NatToDecimal(n)) == Value(n)
  {
    DecimalRoundTrip(n);
    var s := NatToDecimal(n);
    assert s[0] != '+' && s[0] != '-' by { assert IsDigit(s[0]); }
    assert Unsigned(s) == s;
  }

  // ---------------------------------------------------------------------------
  // Float to integer conversions
  // ---------------------------------------------------------------------------

  /** Truncation toward zero. */
  function Truncate(x: real): (i: int)
    ensures x >= 0.0 ==> i as real <= x < i as real + 1.0
    ensures x < 0.0 ==> i as real - 1.0 < x <= i as real
  {
    if x >= 0.0 then x.Floor else -((-x).Floor)
  }

  /** `int64(x)` for a float64 x (and `int(x)` on a 64-bit build): the
      truncated value when it fits. Go leaves the result of an out-of-range
      conversion to the platform; amd64 yields MinInt64. */
  function Int64OfFloat(x: real): (i: int)
    ensures IsInt64(i)
    ensures IsInt64(Truncate(x)) ==> i == Truncate(x)
    ensures !IsInt64(Truncate(x)) ==> i == MinInt64
  {
    var t := Truncate(x);
    if IsInt64(t) then t else MinInt64
  }

  /** A whole number in range converts to itself, and truncation drops
      only the fraction. */
  lemma Int64OfWhole(n: int, f: real)
    requires IsInt64(n) && 0.0 <= f < 1.0
    ensures n >= 0 ==> Int64OfFloat(n as real + f) == n
    ensures n <= 0 ==> Int64OfFloat(n as real - f) == n
  {
  }

  // ---------------------------------------------------------------------------
  // string(rune(x))
  // ---------------------------------------------------------------------------

  const TwoTo31: int := 0x8000_0000
  const TwoTo32: int := 0x1_0000_0000

  /** The int32 that a Go conversion `rune(x)` keeps of the integer `x`. */
  function Wrap32(x: int): (r: int)
    ensures -TwoTo31 <= r < TwoTo31
    ensures (r - x) % TwoTo32 == 0
    ensures -TwoTo31 <= x < TwoTo31 ==> r == x
  {
    (x + TwoTo31) % TwoTo32 - TwoTo31
  }

  /** A Unicode scalar value: a code point that is not a surrogate. */
  predicate IsScalar(r: int) {
    0 <= r < 0xD800 || 0xE000 <= r <= 0x10FFFF
  }

  /** Go's `string(rune(x))`: the one-character string of the code point, or
      U+FFFD when the truncated value is not a scalar value. */
  function RuneString(x: int): (s: string)
    ensures |s| == 1
    ensures IsScalar(Wrap32(x)) ==> s[0] as int == Wrap32(x)
    ensures !IsScalar(Wrap32(x)) ==> s[0] == '\U{FFFD}'
  {
    var r := Wrap32(x);
    if IsScalar(r) then [r as char] else "\U{FFFD}"
  }
}
