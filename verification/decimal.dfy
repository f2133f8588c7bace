/** `U256::from_dec_str`: base-10 text to an unsigned 256-bit integer.
    The conversion walks the text left to right, multiplying the running value
    by ten and adding the next digit; it stops with `InvalidCharacter` at the
    first byte that is not `0`-`9`, and with `InvalidLength` as soon as the
    running value no longer fits in 256 bits. */
module Decimal {
  import opened Wrappers

  /** 2^256, one more than the largest 256-bit unsigned value. */
  const MODULUS: nat := 0x1_0000_0000_0000_0000_0000_0000_0000_0000_0000_0000_0000_0000_0000_0000_0000_0000

  type U256 = n: nat | n < MODULUS witness 0

  /** The two ways the conversion refuses its input. */
  datatype DecError = InvalidCharacter | InvalidLength

  predicate IsDigit(c: char) {
    '0' <= c <= '9'
  }

  predicate AllDigits(s: string) {
    forall i :: 0 <= i < |s| ==> IsDigit(s[i])
  }

  function DigitValue(c: char): (d: nat)
    requires IsDigit(c)
    ensures d < 10
  {
    c as int - '0' as int
  }

  function Pow10(n: nat): (r: nat)
    ensures r >= 1
  {
    if n == 0 then 1 else 10 * Pow10(n - 1)
  }

  /** Positional value of a digit string: the sum of digit i times
      10^(length - 1 - i). This is the reference the conversion is proved
      against. */
  function DecValue(s: string): nat
    requires AllDigits(s)
  {
    if s == [] then 0 else DigitValue(s[0]) * Pow10(|s| - 1) + DecValue(s[1..])
  }

  /** What the conversion yields after having read a prefix worth `acc` and
      still having `s` to read: `acc` shifted left by |s| decimal places plus
      the value of `s`. */
  function Shifted(acc: nat, s: string): nat
    requires AllDigits(s)
  {
    acc * Pow10(|s|) + DecValue(s)
  }

  /** The conversion loop, one character per step, from a running value `acc`. */
  function FoldDigits(acc: U256, s: string): Result<U256, DecError>
    decreases |s|
  {
    if s == [] then Success(acc)
    else if !IsDigit(s[0]) then Failure(InvalidCharacter)
    else if acc * 10 + DigitValue(s[0]) >= MODULUS then Failure(InvalidLength)
    else FoldDigits(acc * 10 + DigitValue(s[0]), s[1..])
  }

  /** One step of the fold does not change the value still to be produced. */
  lemma ShiftedStep(acc: nat, s: string)
    requires s != [] && AllDigits(s)
    ensures Shifted(acc, s) == Shifted(acc * 10 + DigitValue(s[0]), s[1..])
  {
    var d, p := DigitValue(s[0]), Pow10(|s| - 1);
    assert AllDigits(s[1..]);
    assert Shifted(acc, s) == acc * (10 * p) + (d * p + DecValue(s[1..]));
    ShiftDistributes(acc, d, p);
  }

  lemma ShiftDistributes(a: int, d: int, p: int)
    ensures a * (10 * p) + d * p == (a * 10 + d) * p
  {
  }

  /** Reading more digits never lowers the value. */
  lemma ShiftedAtLeast(acc: nat, s: string)
    requires AllDigits(s)
    ensures Shifted(acc, s) >= acc
  {
    var p := Pow10(|s|);
    assert acc * p >= acc * 1;
  }

  /** A text is all digits exactly when its first character is a digit and
      the rest is all digits. */
  lemma AllDigitsCons(s: string)
    requires s != []
    ensures AllDigits(s) <==> IsDigit(s[0]) && AllDigits(s[1..])
  {
    if IsDigit(s[0]) && AllDigits(s[1..]) {
      forall i | 0 <= i < |s| ensures IsDigit(s[i]) {
        if i > 0 { assert s[i] == s[1..][i - 1]; }
      }
    }
  }

  /** The fold succeeds exactly when every character is a digit and the final
      value fits, and then yields that value; an all-digit text that does not
      fit is refused with `InvalidLength`. */
  lemma {:induction false} FoldDigitsSpec(acc: U256, s: string)
    decreases |s|
    ensures FoldDigits(acc, s).Success? <==> AllDigits(s) && Shifted(acc, s) < MODULUS
    ensures FoldDigits(acc, s).Success? ==> FoldDigits(acc, s).value == Shifted(acc, s)
    ensures AllDigits(s) && Shifted(acc, s) >= MODULUS ==> FoldDigits(acc, s) == Failure(InvalidLength)
  {
    if s == [] {
      assert Shifted(acc, s) == acc;
    } else {
      AllDigitsCons(s);
      if IsDigit(s[0]) {
        var next := acc * 10 + DigitValue(s[0]);
        if AllDigits(s) {
          ShiftedStep(acc, s);
          ShiftedAtLeast(next, s[1..]);
        }
        if next < MODULUS {
          FoldDigitsSpec(next, s[1..]);
        }
      }
    }
  }

  /** `U256::from_dec_str(s)`: succeeds exactly on all-digit text whose value is
      below 2^256 and then yields that value. */
  function FromDecStr(s: string): (r: Result<U256, DecError>)
    ensures r.Success? <==> AllDigits(s) && DecValue(s) < MODULUS
    ensures r.Success? ==> r.value == DecValue(s)
    ensures AllDigits(s) && DecValue(s) >= MODULUS ==> r == Failure(InvalidLength)
    ensures s != [] && !IsDigit(s[0]) ==> r == Failure(InvalidCharacter)
  {
    FoldDigitsSpec(0, s);
    FoldDigits(0, s)
  }
}
