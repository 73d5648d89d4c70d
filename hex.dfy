/**
 * Hexadecimal text as the LTC reader produces it: `Integer.toHexString`
 * (lower-case digits, no leading zeros, a negative `int` read as unsigned)
 * and `TimecodeReader.toHex`, which pads that text with zeros to eight digits.
 */
module Hex {
  import opened JavaInt

  predicate IsHexDigit(c: char)
  {
    '0' <= c <= '9' || 'a' <= c <= 'f'
  }

  predicate IsHexText(s: string)
  {
    forall i :: 0 <= i < |s| ==> IsHexDigit(s[i])
  }

  /** The lower-case hex digit of a value in [0, 15]. */
  function HexDigit(n: int): (c: char)
    requires 0 <= n < 16
    ensures IsHexDigit(c)
  {
    if n < 10 then (48 + n) as char else (87 + n) as char
  }

  /** The value of a hex digit. */
  function DigitValue(c: char): (n: int)
    requires IsHexDigit(c)
    ensures 0 <= n < 16
  {
    if c <= '9' then c as int - 48 else c as int - 87
  }

  lemma DigitRoundTrip(n: int)
    requires 0 <= n < 16
    ensures DigitValue(HexDigit(n)) == n
  {
  }

  lemma CharRoundTrip(c: char)
    requires IsHexDigit(c)
    ensures HexDigit(DigitValue(c)) == c
  {
  }

  /** The number a hex text denotes, most significant digit first. */
  function ParseHex(s: string): (n: nat)
    requires IsHexText(s)
    decreases |s|
  {
    if s == [] then 0 else ParseHex(s[..|s| - 1]) * 16 + DigitValue(s[|s| - 1])
  }

  /** 16 to the power n. */
  function Pow16(n: nat): (r: nat)
    ensures r >= 1
  {
    if n == 0 then 1 else 16 * Pow16(n - 1)
  }

  /** Hex text of a natural number without leading zeros (`Integer.toHexString` of a non-negative value). */
  function HexString(n: nat): (s: string)
    ensures |s| >= 1 && IsHexText(s)
    decreases n
  {
    if n < 16 then [HexDigit(n)] else HexString(n / 16) + [HexDigit(n % 16)]
  }

  /** The unsigned reading of a Java `int`. */
  function Unsigned32(v: int): nat
    requires IsInt32(v)
  {
    if v < 0 then v + TWO_32 else v
  }

  /** `Integer.toHexString` of a Java `int`. */
  function ToHexString(v: int): (s: string)
    requires IsInt32(v)
    ensures 1 <= |s| <= 8 && IsHexText(s)
  {
    assert Pow16(8) == TWO_32;
    HexStringLength(Unsigned32(v), 8);
    HexString(Unsigned32(v))
  }

  /** Parsing inverts printing. */
  lemma {:induction false} ParseHexString(n: nat)
    ensures ParseHex(HexString(n)) == n
    decreases n
  {
    if n >= 16 {
      var s := HexString(n);
      ParseHexString(n / 16);
      assert s[..|s| - 1] == HexString(n / 16);
      DigitRoundTrip(n % 16);
    }
  }

  /** A number below 16^k needs at most k digits. */
  lemma {:induction false} HexStringLength(n: nat, k: nat)
    requires 1 <= k && n < Pow16(k)
    ensures |HexString(n)| <= k
    decreases k
  {
    if n >= 16 {
      assert k >= 2;
      HexStringLength(n / 16, k - 1);
    }
  }

  /** A leading zero does not change the value. */
  lemma {:induction false} ParseLeadingZero(s: string)
    requires IsHexText(s)
    ensures IsHexText(['0'] + s) && ParseHex(['0'] + s) == ParseHex(s)
    decreases |s|
  {
    var t := ['0'] + s;
    assert IsHexText(t);
    if s != [] {
      assert t[..|t| - 1] == ['0'] + s[..|s| - 1];
      ParseLeadingZero(s[..|s| - 1]);
    }
  }

  /** A run of n zero digits. */
  function Zeros(n: nat): (s: string)
    ensures |s| == n && IsHexText(s)
  {
    if n == 0 then [] else ['0'] + Zeros(n - 1)
  }

  /** Leading zeros do not change the value. */
  lemma {:induction false} ParseZeros(n: nat, s: string)
    requires IsHexText(s)
    ensures IsHexText(Zeros(n) + s) && ParseHex(Zeros(n) + s) == ParseHex(s)
  {
    if n > 0 {
      ParseZeros(n - 1, s);
      ParseLeadingZero(Zeros(n - 1) + s);
      assert Zeros(n) + s == ['0'] + (Zeros(n - 1) + s);
    } else {
      assert Zeros(n) + s == s;
    }
  }

  /**
   * What `toHex` returns: the `Integer.toHexString` text padded on the left
   * with zeros to eight digits, which denotes the unsigned reading of the value.
   */
  function PaddedHex(v: int): (s: string)
    requires IsInt32(v)
    ensures |s| == 8 && IsHexText(s)
    ensures ParseHex(s) == Unsigned32(v)
  {
    var digits := ToHexString(v);
    ParseHexString(Unsigned32(v));
    ParseZeros(8 - |digits|, digits);
    Zeros(8 - |digits|) + digits
  }

  /**
   * `toHex`: the hex text of a Java `int`, padded on the left with zeros to
   * eight digits.
   */
  method ToHex(val: int) returns (s: string)
    requires IsInt32(val)
    ensures s == PaddedHex(val)
  {
    var digits := ToHexString(val);
    s := digits;
    ghost var pad := 0;
    while |s| < 8
      invariant |s| == pad + |digits| <= 8
      invariant s == Zeros(pad) + digits
      decreases 8 - |s|
    {
      assert ['0'] + s == Zeros(pad + 1) + digits;
      s := ['0'] + s;
      pad := pad + 1;
    }
  }
}
