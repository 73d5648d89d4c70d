/**
 * The 16-bit sliding shift register `frameWord` of the LTC reader.
 *
 * Each decoded bit enters at bit 15 while the previous bits move one place
 * towards bit 0, so after the bits b_0 .. b_{n-1} have been shifted into a
 * cleared register, bit 15 holds b_{n-1}, bit 14 holds b_{n-2}, and so on:
 * the register is a window on the last (at most) 16 bits.
 */
module Bits {

  /** 2 to the power n. */
  function Pow2(n: nat): (r: nat)
    ensures r >= 1
  {
    if n == 0 then 1 else 2 * Pow2(n - 1)
  }

  /** Bit i of w, bit 0 being the least significant (`(w >> i) & 1` in Java). */
  predicate Bit(w: int, i: nat)
    decreases i
  {
    if i == 0 then w % 2 == 1 else Bit(w / 2, i - 1)
  }

  /**
   * One shift of the register: `(frameWord >> 1)`, plus `0x8000` when the
   * new bit is a one.
   */
  function Shift(w: int, bit: bool): (r: int)
    ensures 0 <= w < 0x10000 ==> 0 <= r < 0x10000 && (r >= 0x8000 <==> bit) && r % 0x8000 == w / 2
  {
    w / 2 + (if bit then 0x8000 else 0)
  }

  /** The register after shifting the bits `bs`, oldest first, into a cleared register. */
  function WordOf(bs: seq<bool>): (w: int)
    ensures 0 <= w < 0x10000
  {
    if bs == [] then 0 else Shift(WordOf(bs[..|bs| - 1]), bs[|bs| - 1])
  }

  lemma {:induction false} BitOfZero(i: nat)
    ensures !Bit(0, i)
  {
    if i > 0 {
      BitOfZero(i - 1);
    }
  }

  /** Adding a one at position k above a smaller value sets bit k and leaves bits below k alone. */
  lemma {:induction false} BitOfHighAdd(v: int, c: bool, k: nat, i: nat)
    requires 0 <= v < Pow2(k)
    requires i <= k
    ensures Bit(v + (if c then Pow2(k) else 0), i) == if i == k then c else Bit(v, i)
  {
    var x := v + (if c then Pow2(k) else 0);
    if i == 0 {
      if k > 0 {
        assert x % 2 == v % 2;
      }
    } else {
      assert x / 2 == v / 2 + (if c then Pow2(k - 1) else 0);
      BitOfHighAdd(v / 2, c, k - 1, i - 1);
    }
  }

  /** The shift moves every bit one place down and puts the new bit in position 15. */
  lemma ShiftBit(w: int, bit: bool, i: nat)
    requires 0 <= w < 0x10000
    requires i < 16
    ensures Bit(Shift(w, bit), i) == if i == 15 then bit else Bit(w, i + 1)
  {
    assert Pow2(15) == 0x8000;
    BitOfHighAdd(w / 2, bit, 15, i);
  }

  /**
   * The register is the window on the last 16 bits: bit i holds the bit
   * received 15 - i shifts ago, and is clear when fewer bits were received.
   */
  lemma {:induction false} WordOfBit(bs: seq<bool>, i: nat)
    requires i < 16
    ensures Bit(WordOf(bs), i) == (16 - i <= |bs| && bs[|bs| - 16 + i])
  {
    if bs == [] {
      BitOfZero(i);
    } else {
      var init := bs[..|bs| - 1];
      ShiftBit(WordOf(init), bs[|bs| - 1], i);
      if i < 15 {
        WordOfBit(init, i + 1);
      }
    }
  }

  /** Two values below 2^n that agree on their n low bits are equal. */
  lemma {:induction false} BitsDetermine(a: int, b: int, n: nat)
    requires 0 <= a < Pow2(n) && 0 <= b < Pow2(n)
    requires forall i: nat :: i < n ==> Bit(a, i) == Bit(b, i)
    ensures a == b
  {
    if n > 0 {
      assert Bit(a, 0) == Bit(b, 0);
      forall i: nat | i < n - 1
        ensures Bit(a / 2, i) == Bit(b / 2, i)
      {
        assert Bit(a, i + 1) == Bit(b, i + 1);
      }
      BitsDetermine(a / 2, b / 2, n - 1);
    }
  }

  /** Bits older than the last 16 have left the register: only the window matters. */
  lemma WordOfWindow(prefix: seq<bool>, window: seq<bool>)
    requires |window| >= 16
    ensures WordOf(prefix + window) == WordOf(window)
  {
    var bs := prefix + window;
    forall i: nat | i < 16
      ensures Bit(WordOf(bs), i) == Bit(WordOf(window), i)
    {
      WordOfBit(bs, i);
      WordOfBit(window, i);
      assert bs[|bs| - 16 + i] == window[|window| - 16 + i];
    }
    assert Pow2(16) == 2 * Pow2(15) == 0x10000;
    BitsDetermine(WordOf(bs), WordOf(window), 16);
  }
}
