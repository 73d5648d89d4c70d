/**
 * The biphase-mark demodulator of the LTC reader (the per-sample part of
 * `TimeCode.process`).
 *
 * A transition is a zero crossing that moves the signal by more than 10.
 * The number of samples between transitions (`interval`) is compared with
 * the previous one (`lastInterval`): clearly longer means a '0', clearly
 * shorter means a '1', anything in between repeats the previous bit. The
 * transition in the middle of a '1' is swallowed through `skipBit`.
 *
 * The partner of the demodulator is a biphase-mark modulator, `Modulate`,
 * and `DemodulatesModulated` proves that the demodulator recovers exactly
 * the bits the modulator encoded.
 */
module Biphase {
  import opened Wrappers
  import opened JavaInt

  function Abs(x: int): int
  {
    if x < 0 then -x else x
  }

  /** A zero crossing (the sign, taken as `> 0`, differs) that moves the signal by more than 10. */
  predicate IsTransition(lastSample: int, sample: int)
  {
    Abs(lastSample - sample) > 10 && (lastSample > 0) != (sample > 0)
  }

  /**
   * The bit ending at a transition that is not skipped: `interval` longer than
   * `lastInterval + (lastInterval >> 1)` is a '0', shorter than
   * `lastInterval - (lastInterval >> 2)` is a '1', otherwise the last bit again.
   * Where nothing wraps, the shifts are exact ratios: a '0' is an interval
   * more than 1.5 times the last, a '1' one less than 0.75 times the last.
   */
  function Classify(interval: int, lastInterval: int, bitValue: bool): (bit: bool)
    ensures 0 <= lastInterval < 0x4000_0000 ==>
              bit == if 2 * interval > 3 * lastInterval then false
                     else if 4 * interval < 3 * lastInterval then true
                     else bitValue
  {
    if interval > Int32(lastInterval + lastInterval / 2) then false
    else if interval < Int32(lastInterval - lastInterval / 4) then true
    else bitValue
  }

  /** The demodulator state carried from sample to sample and from block to block. */
  datatype Demod = Demod(lastSample: int, interval: int, lastInterval: int, skipBit: bool, bitValue: bool)

  /** The outcome of one sample: the next state and the bit it completed, if any. */
  datatype Demodulated = Demodulated(next: Demod, bit: Option<bool>)

  /** One sample through the demodulator. */
  function DemodStep(d: Demod, sample: int): (r: Demodulated)
    ensures r.next.lastSample == sample
    ensures r.bit.Some? <==> IsTransition(d.lastSample, sample) && !d.skipBit
    ensures r.bit.Some? ==> r.bit.value == Classify(d.interval, d.lastInterval, d.bitValue)
    ensures r.bit.Some? ==> r.next.bitValue == r.bit.value && r.next.skipBit == r.bit.value
    ensures r.bit.None? ==> r.next.bitValue == d.bitValue
  {
    if IsTransition(d.lastSample, sample) then
      if d.skipBit then
        Demodulated(Demod(sample, 0, d.interval, false, d.bitValue), None)
      else
        var bit := Classify(d.interval, d.lastInterval, d.bitValue);
        Demodulated(Demod(sample, 0, d.interval, bit, bit), Some(bit))
    else
      Demodulated(Demod(sample, Int32(d.interval + 1), d.lastInterval, d.skipBit, d.bitValue), None)
  }

  /**
   * The interval bookkeeping: every transition, skipped or not, makes the
   * current interval the last one and restarts the count; any other sample
   * counts one more (in Java `int` arithmetic).
   */
  lemma DemodIntervals(d: Demod, sample: int)
    ensures var n := DemodStep(d, sample).next;
            if IsTransition(d.lastSample, sample)
            then n.lastInterval == d.interval && n.interval == 0
            else n.lastInterval == d.lastInterval && n.interval == Int32(d.interval + 1) &&
                 n.skipBit == d.skipBit && n.bitValue == d.bitValue
  {
  }

  /** A skipped transition clears the flag and yields no bit. */
  lemma DemodSkip(d: Demod, sample: int)
    requires IsTransition(d.lastSample, sample) && d.skipBit
    ensures DemodStep(d, sample).bit == None && !DemodStep(d, sample).next.skipBit
  {
  }

  /** The state after the samples `xs` and the bits they completed, in order. */
  function DemodRun(d: Demod, xs: seq<int>): (r: (Demod, seq<bool>))
    ensures |r.1| <= |xs|
    decreases |xs|
  {
    if xs == [] then (d, [])
    else
      var prev := DemodRun(d, xs[..|xs| - 1]);
      var step := DemodStep(prev.0, xs[|xs| - 1]);
      (step.next, prev.1 + (if step.bit.Some? then [step.bit.value] else []))
  }

  lemma {:induction false} DemodRunAppend(d: Demod, xs: seq<int>, ys: seq<int>)
    ensures var first := DemodRun(d, xs);
            var second := DemodRun(first.0, ys);
            DemodRun(d, xs + ys) == (second.0, first.1 + second.1)
    decreases |ys|
  {
    if ys == [] {
      assert xs + ys == xs;
      assert DemodRun(d, xs).1 + [] == DemodRun(d, xs).1;
    } else {
      var init := ys[..|ys| - 1];
      assert (xs + ys)[..|xs + ys| - 1] == xs + init;
      assert (xs + ys)[|xs + ys| - 1] == ys[|ys| - 1];
      DemodRunAppend(d, xs, init);
      var first := DemodRun(d, xs);
      var mid := DemodRun(first.0, init);
      var step := DemodStep(mid.0, ys[|ys| - 1]);
      var extra := if step.bit.Some? then [step.bit.value] else [];
      assert DemodRun(first.0, ys) == (step.next, mid.1 + extra);
      assert DemodRun(d, xs + ys) == (step.next, (first.1 + mid.1) + extra);
      assert (first.1 + mid.1) + extra == first.1 + (mid.1 + extra);
    }
  }

  // ---------------------------------------------------------------------
  // The partner: a biphase-mark modulator.
  // ---------------------------------------------------------------------

  /** The sample value of the high or the low level. */
  function Level(high: bool, amp: int): int
  {
    if high then amp else -amp
  }

  /** n samples at one level. */
  function Hold(high: bool, amp: int, n: nat): seq<int>
  {
    seq(n, _ => Level(high, amp))
  }

  /**
   * Biphase-mark modulation with `half` samples per half bit. Each bit starts
   * with a transition; a '1' has one more in its middle. `high` is the level
   * the opening transition of `bits[0]` (already sent) left the line at; the
   * samples of a bit run up to and including the transition that opens the
   * next bit.
   */
  function Modulate(bits: seq<bool>, high: bool, half: nat, amp: int): seq<int>
    requires half >= 1
    decreases |bits|
  {
    if bits == [] then []
    else Segment(bits[0], high, half, amp) + Modulate(bits[1..], LevelAfter(bits[0], high), half, amp)
  }

  /** The samples of one bit: a '0' holds for a whole bit, a '1' changes level in its middle. */
  function Segment(bit: bool, high: bool, half: nat, amp: int): seq<int>
    requires half >= 1
  {
    if !bit then
      Hold(high, amp, 2 * half - 1) + [Level(!high, amp)]
    else
      Hold(high, amp, half - 1) + [Level(!high, amp)] + Hold(!high, amp, half - 1) + [Level(high, amp)]
  }

  /** The level of the line after a bit's closing transition. */
  function LevelAfter(bit: bool, high: bool): bool
  {
    if bit then high else !high
  }

  /**
   * The demodulator locked onto a modulated signal: just after the opening
   * transition of a bit, the line at `high`, the previous bit `prev`, and
   * `lastInterval` the length of the last run of the previous bit.
   */
  function Locked(prev: bool, high: bool, half: nat, amp: int): Demod
    requires half >= 1
  {
    Demod(Level(high, amp), 0, if prev then half - 1 else 2 * half - 1, false, prev)
  }

  /** Samples that do not cross zero only count. */
  lemma {:induction false} DemodHold(d: Demod, high: bool, amp: int, n: nat)
    requires amp > 0 && d.lastSample == Level(high, amp)
    requires 0 <= d.interval && d.interval + n <= MAX_INT
    ensures DemodRun(d, Hold(high, amp, n)) == (d.(interval := d.interval + n), [])
    decreases n
  {
    if n > 0 {
      assert Hold(high, amp, n)[..n - 1] == Hold(high, amp, n - 1);
      DemodHold(d, high, amp, n - 1);
    } else {
      assert Hold(high, amp, n) == [];
    }
  }

  /** A single sample through `DemodRun` is one `DemodStep`. */
  lemma DemodOne(d: Demod, x: int)
    ensures var step := DemodStep(d, x);
            DemodRun(d, [x]) == (step.next, if step.bit.Some? then [step.bit.value] else [])
  {
    assert [x][..0] == [];
    var step := DemodStep(d, x);
    var extra := if step.bit.Some? then [step.bit.value] else [];
    assert DemodRun(d, []) == (d, []);
    assert [] + extra == extra;
  }

  /** A '0' is a run of a whole bit closed by a transition that is classified as '0'. */
  lemma DemodulatesZero(prev: bool, high: bool, half: nat, amp: int)
    requires 1 <= half < 0x1000_0000
    requires 5 < amp
    ensures DemodRun(Locked(prev, high, half, amp), Segment(false, high, half, amp)) ==
            (Locked(false, !high, half, amp), [false])
  {
    var d := Locked(prev, high, half, amp);
    assert Classify(2 * half - 1, d.lastInterval, prev) == false;
    var hold := Hold(high, amp, 2 * half - 1);
    DemodHold(d, high, amp, 2 * half - 1);
    DemodOne(d.(interval := 2 * half - 1), Level(!high, amp));
    DemodRunAppend(d, hold, [Level(!high, amp)]);
  }

  /** The first half of a '1' is short: its closing transition is classified as '1' and arms the skip. */
  lemma DemodulatesFirstHalf(prev: bool, high: bool, half: nat, amp: int)
    requires 1 <= half < 0x1000_0000
    requires 5 < amp
    ensures DemodRun(Locked(prev, high, half, amp), Hold(high, amp, half - 1) + [Level(!high, amp)]) ==
            (Demod(Level(!high, amp), 0, half - 1, true, true), [true])
  {
    var d := Locked(prev, high, half, amp);
    assert Classify(half - 1, d.lastInterval, prev) == true;
    DemodHold(d, high, amp, half - 1);
    DemodOne(d.(interval := half - 1), Level(!high, amp));
    DemodRunAppend(d, Hold(high, amp, half - 1), [Level(!high, amp)]);
  }

  /** The transition closing the second half of a '1' is the skipped one. */
  lemma DemodulatesSecondHalf(high: bool, half: nat, amp: int)
    requires 1 <= half < 0x1000_0000
    requires 5 < amp
    ensures DemodRun(Demod(Level(!high, amp), 0, half - 1, true, true), Hold(!high, amp, half - 1) + [Level(high, amp)]) ==
            (Locked(true, high, half, amp), [])
  {
    var d := Demod(Level(!high, amp), 0, half - 1, true, true);
    DemodHold(d, !high, amp, half - 1);
    DemodOne(d.(interval := half - 1), Level(high, amp));
    DemodRunAppend(d, Hold(!high, amp, half - 1), [Level(high, amp)]);
  }

  /** The samples of one bit take a locked demodulator to the next locked state and yield that bit. */
  lemma DemodulatesBit(prev: bool, bit: bool, high: bool, half: nat, amp: int)
    requires 1 <= half < 0x1000_0000
    requires 5 < amp
    ensures DemodRun(Locked(prev, high, half, amp), Segment(bit, high, half, amp)) ==
            (Locked(bit, LevelAfter(bit, high), half, amp), [bit])
  {
    if !bit {
      DemodulatesZero(prev, high, half, amp);
    } else {
      var first := Hold(high, amp, half - 1) + [Level(!high, amp)];
      var second := Hold(!high, amp, half - 1) + [Level(high, amp)];
      DemodulatesFirstHalf(prev, high, half, amp);
      DemodulatesSecondHalf(high, half, amp);
      DemodRunAppend(Locked(prev, high, half, amp), first, second);
      assert Segment(bit, high, half, amp) == first + second;
      assert [true] + [] == [true];
    }
  }

  /**
   * Demodulation inverts modulation: a demodulator locked onto the signal
   * recovers exactly the bits that were encoded, the midpoint transition of
   * every '1' being skipped.
   */
  lemma {:induction false} DemodulatesModulated(prev: bool, bits: seq<bool>, high: bool, half: nat, amp: int)
    requires 1 <= half < 0x1000_0000
    requires 5 < amp
    ensures DemodRun(Locked(prev, high, half, amp), Modulate(bits, high, half, amp)).1 == bits
    decreases |bits|
  {
    if bits != [] {
      var b := bits[0];
      var high' := LevelAfter(b, high);
      DemodulatesBit(prev, b, high, half, amp);
      DemodRunAppend(Locked(prev, high, half, amp), Segment(b, high, half, amp), Modulate(bits[1..], high', half, amp));
      DemodulatesModulated(b, bits[1..], high', half, amp);
      assert bits == [b] + bits[1..];
    }
  }
}
