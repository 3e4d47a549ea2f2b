/**
  Bytes and their hexadecimal text form: Python's `bytes.hex()` (always lower case, two
  digits per byte) and `bytes.fromhex(text)` (either case, raises `ValueError` on a character
  that is not a hex digit and on an odd number of digits).
 */
module Hex {
  import opened Wrappers

  newtype byte = x: int | 0 <= x < 256

  /** Why `bytes.fromhex` rejected its argument. */
  datatype HexError =
    | NonHexDigit(position: nat)  // the character at `position` is not a hex digit
    | OddDigitCount               // every character is a hex digit, but there is an odd number of them

  predicate IsHexChar(c: char) {
    '0' <= c <= '9' || 'a' <= c <= 'f' || 'A' <= c <= 'F'
  }

  predicate IsLowerHexChar(c: char) {
    '0' <= c <= '9' || 'a' <= c <= 'f'
  }

  /** Text that `bytes.fromhex` accepts: an even number of hex digits. */
  predicate IsHexText(s: string) {
    |s| % 2 == 0 && forall i :: 0 <= i < |s| ==> IsHexChar(s[i])
  }

  /** The lower-case digit for a nibble, as `bytes.hex()` writes it. */
  function HexDigit(n: int): (c: char)
    requires 0 <= n < 16
    ensures IsLowerHexChar(c)
    ensures ('0' <= c <= '9') <==> n < 10
  {
    if n < 10 then ('0' as int + n) as char else ('a' as int + n - 10) as char
  }

  /** The nibble a hex digit of either case stands for. */
  function HexValue(c: char): (v: int)
    requires IsHexChar(c)
    ensures 0 <= v < 16
  {
    if '0' <= c <= '9' then c as int - '0' as int
    else if 'a' <= c <= 'f' then c as int - 'a' as int + 10
    else c as int - 'A' as int + 10
  }

  /** A hex digit in the case `bytes.hex()` writes it. */
  function LowerHexChar(c: char): char {
    if 'A' <= c <= 'F' then (c as int - 'A' as int + 'a' as int) as char else c
  }

  function LowerHexText(s: string): string {
    seq(|s|, i requires 0 <= i < |s| => LowerHexChar(s[i]))
  }

  /** `b.hex()`: two lower-case digits per byte, high nibble first. */
  function ToHex(b: seq<byte>): (s: string)
    ensures |s| == 2 * |b|
    ensures forall i :: 0 <= i < |s| ==> IsLowerHexChar(s[i])
  {
    if b == [] then ""
    else [HexDigit(b[0] as int / 16), HexDigit(b[0] as int % 16)] + ToHex(b[1..])
  }

  /** An error found `n` characters further into a longer text. */
  function ShiftError(e: HexError, n: nat): HexError {
    match e
    case NonHexDigit(p) => NonHexDigit(p + n)
    case OddDigitCount => OddDigitCount
  }

  /**
    `bytes.fromhex(s)`. Digits are read two at a time from the left; the first character that
    is not a hex digit is reported by its position, and a lone trailing digit as an odd count.
   */
  function FromHex(s: string): (r: Result<seq<byte>, HexError>)
    ensures r.Success? ==> 2 * |r.value| == |s|
    decreases |s|
  {
    if |s| == 0 then Success([])
    else if !IsHexChar(s[0]) then Failure(NonHexDigit(0))
    else if |s| == 1 then Failure(OddDigitCount)
    else if !IsHexChar(s[1]) then Failure(NonHexDigit(1))
    else
      var b := (16 * HexValue(s[0]) + HexValue(s[1])) as byte;
      match FromHex(s[2..])
      case Success(rest) => Success([b] + rest)
      case Failure(e) => Failure(ShiftError(e, 2))
  }

  /** Decoding the hex text of `b` followed by more text decodes `b` and then that text. */
  lemma {:induction false} FromHexAfterToHex(b: seq<byte>, t: string)
    ensures FromHex(t).Success? ==> FromHex(ToHex(b) + t) == Success(b + FromHex(t).value)
    ensures FromHex(t).Failure? ==> FromHex(ToHex(b) + t) == Failure(ShiftError(FromHex(t).error, 2 * |b|))
  {
    if b != [] {
      var x := b[0] as int;
      var s := ToHex(b) + t;
      FromHexAfterToHex(b[1..], t);
      assert s[0] == HexDigit(x / 16) && s[1] == HexDigit(x % 16);
      assert s[2..] == ToHex(b[1..]) + t;
      assert 16 * HexValue(s[0]) + HexValue(s[1]) == x;
      if FromHex(t).Success? {
        var v := FromHex(t).value;
        assert FromHex(s[2..]) == Success(b[1..] + v);
        assert FromHex(s) == Success([b[0]] + (b[1..] + v));
        assert [b[0]] + (b[1..] + v) == b + v;
      }
    } else {
      assert ToHex(b) + t == t;
      if FromHex(t).Success? {
        assert b + FromHex(t).value == FromHex(t).value;
      } else {
        match FromHex(t).error
        case NonHexDigit(p) =>
        case OddDigitCount =>
      }
    }
  }

  /** Round trip: `bytes.fromhex(b.hex()) == b`. */
  lemma FromHexToHex(b: seq<byte>)
    ensures FromHex(ToHex(b)) == Success(b)
  {
    FromHexAfterToHex(b, "");
    assert ToHex(b) + "" == ToHex(b);
    assert b + [] == b;
  }

  /** What each error says about the text: where the scan stopped and what it found there. */
  lemma {:induction false} FromHexErrors(s: string)
    ensures FromHex(s).Failure? && FromHex(s).error.NonHexDigit? ==>
      var p := FromHex(s).error.position;
      p < |s| && !IsHexChar(s[p]) && forall i :: 0 <= i < p ==> IsHexChar(s[i])
    ensures FromHex(s).Failure? && FromHex(s).error.OddDigitCount? ==>
      |s| % 2 == 1 && forall i :: 0 <= i < |s| ==> IsHexChar(s[i])
  {
    if 2 <= |s| && IsHexChar(s[0]) && IsHexChar(s[1]) {
      var t := s[2..];
      FromHexErrors(t);
      if FromHex(t).Failure? {
        match FromHex(t).error
        case NonHexDigit(p) =>
          assert forall i :: 2 <= i < p + 2 ==> s[i] == t[i - 2];
        case OddDigitCount =>
          assert forall i :: 2 <= i < |s| ==> s[i] == t[i - 2];
      }
    }
  }

  /** `bytes.fromhex(s)` succeeds exactly when `s` is an even number of hex digits. */
  lemma {:induction false} FromHexSucceedsIff(s: string)
    ensures FromHex(s).Success? <==> IsHexText(s)
  {
    FromHexErrors(s);
    if |s| >= 2 && IsHexChar(s[0]) && IsHexChar(s[1]) {
      var t := s[2..];
      FromHexSucceedsIff(t);
      assert forall i :: 2 <= i < |s| ==> s[i] == t[i - 2];
    }
  }

  /** Re-encoding decoded text gives the text back in lower case: `bytes.fromhex(s).hex()`. */
  lemma {:induction false} ToHexFromHex(s: string)
    requires FromHex(s).Success?
    ensures ToHex(FromHex(s).value) == LowerHexText(s)
  {
    if |s| > 0 {
      var t := s[2..];
      ToHexFromHex(t);
      var b := FromHex(s).value;
      assert b[1..] == FromHex(t).value;
      var x := b[0] as int;
      assert x == 16 * HexValue(s[0]) + HexValue(s[1]);
      assert x / 16 == HexValue(s[0]) && x % 16 == HexValue(s[1]);
      assert LowerHexText(s) == [LowerHexChar(s[0]), LowerHexChar(s[1])] + LowerHexText(t);
    }
  }
}
