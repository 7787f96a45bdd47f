/**
 * strconv.Atoi on a 64-bit platform, the integer parser portCheck relies on.
 *
 * Atoi accepts an optional '+' or '-' followed by one or more ASCII digits
 * whose value fits in a 64-bit signed int. Inputs of 19 bytes or more take
 * ParseInt's path, which scans the digits left to right and reports a range
 * error as soon as the value read so far exceeds 2^64 - 1, even when a
 * non-digit follows; shorter inputs cannot overflow, so one scan describes
 * both paths. Every error is a NumError carrying the whole input.
 */
module Strconv {
  import opened Errors

  const MaxUint64: int := 0xFFFF_FFFF_FFFF_FFFF
  const MaxInt64: int := 0x7FFF_FFFF_FFFF_FFFF
  const MinInt64: int := -0x8000_0000_0000_0000

  predicate IsDigit(c: char) { '0' <= c <= '9' }

  function DigitValue(c: char): (d: nat)
    requires IsDigit(c)
    ensures d <= 9
  {
    c as int - '0' as int
  }

  predicate AllDigits(s: string) {
    forall i :: 0 <= i < |s| ==> IsDigit(s[i])
  }

  /** Value of a string of decimal digits, most significant digit first. */
  function DecimalValue(s: string): nat
    requires AllDigits(s)
  {
    if s == [] then 0 else DecimalValue(s[..|s| - 1]) * 10 + DigitValue(s[|s| - 1])
  }

  predicate HasSign(s: string) { |s| > 0 && (s[0] == '+' || s[0] == '-') }

  /** The text after an optional leading sign. */
  function Unsigned(s: string): string {
    if HasSign(s) then s[1..] else s
  }

  /** The syntax Atoi accepts: an optional sign and at least one digit. */
  predicate IsIntegerText(s: string) {
    |Unsigned(s)| > 0 && AllDigits(Unsigned(s))
  }

  /** The mathematical value of integer text, whatever its size. */
  function TextValue(s: string): int
    requires IsIntegerText(s)
  {
    if |s| > 0 && s[0] == '-' then -(DecimalValue(Unsigned(s)) as int) else DecimalValue(Unsigned(s))
  }

  datatype Scan = Value(n: nat) | Overflow | BadDigit

  /**
   * ParseUint's loop over `body` from index `i`, with `acc` the value read so
   * far: a non-digit is a syntax error, a value above 2^64 - 1 a range error.
   */
  function ScanDecimal(body: string, i: nat, acc: nat): Scan
    requires i <= |body|
    decreases |body| - i
  {
    if i == |body| then Value(acc)
    else if !IsDigit(body[i]) then BadDigit
    else
      var n := acc * 10 + DigitValue(body[i]);
      if n > MaxUint64 then Overflow else ScanDecimal(body, i + 1, n)
  }

  function Atoi(s: string): Result<int> {
    var neg := |s| > 0 && s[0] == '-';
    var body := Unsigned(s);
    if body == [] then Err(NumError(s, ErrSyntax))
    else
      match ScanDecimal(body, 0, 0)
      case BadDigit => Err(NumError(s, ErrSyntax))
      case Overflow => Err(NumError(s, ErrRange))
      case Value(u) =>
        if !neg && u > MaxInt64 then Err(NumError(s, ErrRange))
        else if neg && u > MaxInt64 + 1 then Err(NumError(s, ErrRange))
        else Ok(if neg then -(u as int) else u)
  }

  /** Reading more digits never makes the value smaller. */
  lemma {:induction false} DecimalPrefixMonotone(s: string, j: nat)
    requires AllDigits(s) && j <= |s|
    ensures DecimalValue(s[..j]) <= DecimalValue(s)
  {
    if j < |s| {
      var init := s[..|s| - 1];
      assert init[..j] == s[..j];
      DecimalPrefixMonotone(init, j);
    } else {
      assert s[..j] == s;
    }
  }

  /** On a digit string the scan computes DecimalValue, or overflows exactly when it is too large. */
  lemma {:induction false} ScanDigits(body: string, i: nat, acc: nat)
    requires AllDigits(body) && i <= |body|
    requires acc == DecimalValue(body[..i]) && acc <= MaxUint64
    ensures ScanDecimal(body, i, acc) ==
              if DecimalValue(body) <= MaxUint64 then Value(DecimalValue(body)) else Overflow
    decreases |body| - i
  {
    if i == |body| {
      assert body[..i] == body;
    } else {
      var next := body[..i + 1];
      assert next[..|next| - 1] == body[..i];
      DecimalPrefixMonotone(body, i + 1);
      var n := acc * 10 + DigitValue(body[i]);
      if n <= MaxUint64 {
        ScanDigits(body, i + 1, n);
      }
    }
  }

  /** A non-digit anywhere means the scan never yields a value. */
  lemma {:induction false} ScanNonDigit(body: string, i: nat, acc: nat, k: nat)
    requires i <= k < |body| && !IsDigit(body[k])
    ensures !ScanDecimal(body, i, acc).Value?
    decreases |body| - i
  {
    if i < k && IsDigit(body[i]) {
      ScanNonDigit(body, i + 1, acc * 10 + DigitValue(body[i]), k);
    }
  }

  /**
   * Atoi succeeds exactly on integer text whose value fits in 64 bits, and
   * then returns that value; every failure is a NumError about the whole input.
   */
  lemma AtoiSpec(s: string)
    ensures Atoi(s).Ok? <==> IsIntegerText(s) && MinInt64 <= TextValue(s) <= MaxInt64
    ensures Atoi(s).Ok? ==> Atoi(s).value == TextValue(s)
    ensures Atoi(s).Err? ==> Atoi(s).error.NumError? && Atoi(s).error.num == s
    ensures IsIntegerText(s) && !(MinInt64 <= TextValue(s) <= MaxInt64) ==>
              Atoi(s) == Err(NumError(s, ErrRange))
  {
    var body := Unsigned(s);
    if body != [] {
      if AllDigits(body) {
        assert body[..0] == [];
        ScanDigits(body, 0, 0);
      } else {
        var k :| 0 <= k < |body| && !IsDigit(body[k]);
        ScanNonDigit(body, 0, 0, k);
      }
    }
  }
}
