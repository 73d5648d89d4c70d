/**
 * The running estimates `TimeCode.decodeFrame` keeps across frames: the
 * frame rate, reported each time the seconds units digit changes as one
 * more than the highest frame number seen during the second that just
 * ended, and the drop-frame guess, re-evaluated whenever frame 2 arrives
 * without frame 1 before it (SMPTE drop-frame counting skips frames 0 and 1
 * at the start of every minute that is not a multiple of ten).
 */
module Estimator {
  import opened Wrappers
  import opened Frame

  /** The fields `lastFrame`, `lastSecond`, `frameCount` and `dropDetect`. */
  datatype Estimator = Estimator(lastFrame: int, lastSecond: int, frameCount: int, dropDetect: bool)

  /** What the "Estimated Frame Rate" label is set to. */
  datatype RateReport = RateReport(fps: int, dropFrame: bool)

  /** The outcome of one frame: the next estimates and, when the second changed, a report. */
  datatype Observed = Observed(next: Estimator, report: Option<RateReport>)

  /** `Math.max`. */
  function Max(a: int, b: int): (m: int)
    ensures m >= a && m >= b && (m == a || m == b)
  {
    if a < b then b else a
  }

  /** A frame skips into frame 2 when it is frame 2 and the frame before it was not frame 1. */
  predicate SkipsToTwo(lastFrame: int, frameNum: int)
  {
    frameNum == 2 && lastFrame != 1
  }

  /**
   * One decoded frame with frame number `frameNum`, minutes `minutes` and
   * seconds units digit `secUnits`. (Java's `%` and Dafny's agree on whether
   * a number is a multiple of ten, whatever its sign.)
   */
  function Observe(e: Estimator, frameNum: int, minutes: int, secUnits: int): (r: Observed)
    ensures r.next.lastFrame == frameNum && r.next.lastSecond == secUnits
    ensures r.report.Some? <==> secUnits != e.lastSecond
    ensures r.report.Some? ==> r.report.value == RateReport(e.frameCount + 1, r.next.dropDetect)
    ensures SkipsToTwo(e.lastFrame, frameNum) ==> r.next.dropDetect == (minutes % 10 != 0)
    ensures !SkipsToTwo(e.lastFrame, frameNum) ==> r.next.dropDetect == e.dropDetect
    ensures r.next.frameCount >= frameNum
    ensures r.report.None? ==> r.next.frameCount == Max(e.frameCount, frameNum)
    ensures r.report.Some? ==> r.next.frameCount == Max(0, frameNum)
  {
    var drop := if SkipsToTwo(e.lastFrame, frameNum) then minutes % 10 != 0 else e.dropDetect;
    if secUnits != e.lastSecond then
      Observed(Estimator(frameNum, secUnits, Max(0, frameNum), drop), Some(RateReport(e.frameCount + 1, drop)))
    else
      Observed(Estimator(frameNum, secUnits, Max(e.frameCount, frameNum), drop), None)
  }

  /**
   * Frame numbers stay within the two BCD digits of a decoded frame, so the
   * count stays in [0, 39] and every reported rate in [1, 40].
   */
  lemma ObserveBounds(e: Estimator, frameNum: int, minutes: int, secUnits: int)
    requires 0 <= frameNum <= 39
    ensures var r := Observe(e, frameNum, minutes, secUnits);
            0 <= e.frameCount <= 39 ==>
              0 <= r.next.frameCount <= 39 && (r.report.Some? ==> 1 <= r.report.value.fps <= 40)
  {
  }

  /** The part of a decoded frame the estimates look at. */
  datatype Tick = Tick(frameNum: int, minutes: int, secUnits: int)

  /** The estimates after the frames `ts`, oldest first, and the reports made on the way. */
  function ObserveAll(e: Estimator, ts: seq<Tick>): (r: (Estimator, seq<RateReport>))
    ensures ts == [] ==> r == (e, [])
    ensures ts != [] ==> r.0.lastFrame == ts[|ts| - 1].frameNum && r.0.lastSecond == ts[|ts| - 1].secUnits
    decreases |ts|
  {
    if ts == [] then (e, [])
    else
      var prev := ObserveAll(e, ts[..|ts| - 1]);
      var t := ts[|ts| - 1];
      var o := Observe(prev.0, t.frameNum, t.minutes, t.secUnits);
      (o.next, prev.1 + (if o.report.Some? then [o.report.value] else []))
  }

  lemma {:induction false} ObserveAllAppend(e: Estimator, ts: seq<Tick>, us: seq<Tick>)
    ensures var first := ObserveAll(e, ts);
            var second := ObserveAll(first.0, us);
            ObserveAll(e, ts + us) == (second.0, first.1 + second.1)
    decreases |us|
  {
    var first := ObserveAll(e, ts);
    if us == [] {
      assert ts + us == ts && first.1 + [] == first.1;
    } else {
      var n := |us| - 1;
      ObserveAllAppend(e, ts, us[..n]);
      assert (ts + us)[..|ts + us| - 1] == ts + us[..n];
      assert (ts + us)[|ts + us| - 1] == us[n];
      var mid := ObserveAll(first.0, us[..n]);
      var o := Observe(mid.0, us[n].frameNum, us[n].minutes, us[n].secUnits);
      var extra := if o.report.Some? then [o.report.value] else [];
      assert first.1 + mid.1 + extra == first.1 + (mid.1 + extra);
    }
  }

  /** The highest frame number among `ts`. */
  function MaxFrame(ts: seq<Tick>): int
    requires ts != []
    decreases |ts|
  {
    if |ts| == 1 then ts[0].frameNum else Max(MaxFrame(ts[..|ts| - 1]), ts[|ts| - 1].frameNum)
  }

  /** All of `ts` fall in the same second, with seconds units digit `s`. */
  predicate SameSecond(ts: seq<Tick>, s: int)
  {
    forall i :: 0 <= i < |ts| ==> ts[i].secUnits == s
  }

  predicate FrameNumbersNatural(ts: seq<Tick>)
  {
    forall i :: 0 <= i < |ts| ==> ts[i].frameNum >= 0
  }

  /**
   * The frames of one second, entered from a different second: the first of
   * them reports the previous count plus one, the others report nothing, and
   * the count ends as the highest frame number of the second.
   */
  lemma {:induction false} WithinSecond(e: Estimator, ts: seq<Tick>, s: int)
    requires ts != [] && SameSecond(ts, s) && FrameNumbersNatural(ts)
    requires e.lastSecond != s
    ensures var r := ObserveAll(e, ts);
            |r.1| == 1 && r.1[0].fps == e.frameCount + 1 &&
            r.0.frameCount == MaxFrame(ts) && r.0.lastSecond == s
    decreases |ts|
  {
    if |ts| > 1 {
      WithinSecond(e, ts[..|ts| - 1], s);
    }
  }

  /**
   * The rate measurement: after a whole second of frames `ts`, the first
   * frame of the next second reports one more than the highest frame number
   * of that second.
   */
  lemma MeasuresRate(e: Estimator, ts: seq<Tick>, s: int, t: Tick)
    requires ts != [] && SameSecond(ts, s) && FrameNumbersNatural(ts)
    requires e.lastSecond != s && t.secUnits != s
    ensures var reports := ObserveAll(e, ts + [t]).1;
            |reports| == 2 && reports[1].fps == MaxFrame(ts) + 1
  {
    WithinSecond(e, ts, s);
    assert (ts + [t])[..|ts|] == ts;
  }

  /** A second whose frames are numbered 0, 1, ..., n - 1. */
  function CountedSecond(n: nat, minutes: int, s: int): (ts: seq<Tick>)
    ensures |ts| == n && SameSecond(ts, s) && FrameNumbersNatural(ts)
    ensures forall i :: 0 <= i < n ==> ts[i].frameNum == i
  {
    seq(n, i => Tick(i, minutes, s))
  }

  lemma {:induction false} CountedSecondMax(n: nat, minutes: int, s: int)
    requires n >= 1
    ensures MaxFrame(CountedSecond(n, minutes, s)) == n - 1
  {
    if n > 1 {
      CountedSecondMax(n - 1, minutes, s);
      assert CountedSecond(n, minutes, s)[..n - 1] == CountedSecond(n - 1, minutes, s);
    }
  }

  /** A signal of n frames per second, frames numbered 0 to n - 1, is reported as n fps. */
  lemma CountsFrames(e: Estimator, n: nat, minutes: int, s: int, t: Tick)
    requires n >= 1 && e.lastSecond != s && t.secUnits != s
    ensures var reports := ObserveAll(e, CountedSecond(n, minutes, s) + [t]).1;
            |reports| == 2 && reports[1].fps == n
  {
    CountedSecondMax(n, minutes, s);
    MeasuresRate(e, CountedSecond(n, minutes, s), s, t);
  }

  /** The frame number seen before `ts[i]`: `lastFrame` for the first of them. */
  function FrameBefore(lastFrame: int, ts: seq<Tick>, i: nat): int
    requires i < |ts|
  {
    if i == 0 then lastFrame else ts[i - 1].frameNum
  }

  /** Every frame 2 in `ts` comes right after frame 1. */
  predicate NeverSkips(lastFrame: int, ts: seq<Tick>)
  {
    forall i :: 0 <= i < |ts| ==> !SkipsToTwo(FrameBefore(lastFrame, ts, i), ts[i].frameNum)
  }

  /** A signal that counts every frame (non-drop-frame timecode) never changes the drop-frame guess. */
  lemma {:induction false} NonDropKeepsFlag(e: Estimator, ts: seq<Tick>)
    requires NeverSkips(e.lastFrame, ts)
    ensures ObserveAll(e, ts).0.dropDetect == e.dropDetect
    ensures forall k :: 0 <= k < |ObserveAll(e, ts).1| ==> ObserveAll(e, ts).1[k].dropFrame == e.dropDetect
    decreases |ts|
  {
    if ts != [] {
      var n := |ts| - 1;
      assert NeverSkips(e.lastFrame, ts[..n]) by {
        forall i | 0 <= i < n
          ensures !SkipsToTwo(FrameBefore(e.lastFrame, ts[..n], i), ts[..n][i].frameNum)
        {
          assert FrameBefore(e.lastFrame, ts[..n], i) == FrameBefore(e.lastFrame, ts, i);
        }
      }
      NonDropKeepsFlag(e, ts[..n]);
      var prev := ObserveAll(e, ts[..n]);
      assert prev.0.lastFrame == FrameBefore(e.lastFrame, ts, n);
    }
  }

  /** A time of day to the frame, as a 30-frame drop-frame counter runs through it. */
  datatype Time = Time(minutes: int, seconds: int, frame: int)

  /**
   * The frame after `t` in SMPTE 30-frame drop-frame counting: frames 0 and 1
   * are left out at the start of every minute that is not a multiple of ten.
   */
  function NextDropFrame(t: Time): Time
  {
    if t.frame < 29 then Time(t.minutes, t.seconds, t.frame + 1)
    else if t.seconds < 59 then Time(t.minutes, t.seconds + 1, 0)
    else
      var m := (t.minutes + 1) % 60;
      Time(m, 0, if m % 10 != 0 then 2 else 0)
  }

  /** What the estimates see of a time. */
  function TickOf(t: Time): Tick
  {
    Tick(t.frame, t.minutes, t.seconds % 10)
  }

  /** Consecutive frames of a drop-frame counter, seen as ticks. */
  predicate DropFrameRun(ts: seq<Tick>, times: seq<Time>)
  {
    |ts| == |times| &&
    (forall i :: 0 <= i < |ts| ==> ts[i] == TickOf(times[i])) &&
    (forall i :: 0 < i < |times| ==> times[i] == NextDropFrame(times[i - 1]))
  }

  /**
   * In a drop-frame run, frame 2 follows a frame other than 1 only at the
   * start of a minute that is not a multiple of ten.
   */
  lemma DropFrameSkips(t: Time)
    requires 0 <= t.frame
    ensures SkipsToTwo(t.frame, NextDropFrame(t).frame) ==> NextDropFrame(t).minutes % 10 != 0
    ensures t.frame == 29 && t.seconds >= 59 && (t.minutes + 1) % 60 % 10 != 0 ==>
            SkipsToTwo(t.frame, NextDropFrame(t).frame)
  {
  }

  /**
   * Once the guess says drop frame, frames of a drop-frame counter keep it:
   * every skip into frame 2 happens in a minute that sets it again.
   */
  lemma {:induction false} DropFrameKeepsFlag(e: Estimator, ts: seq<Tick>, times: seq<Time>)
    requires DropFrameRun(ts, times) && e.dropDetect
    requires forall i :: 0 <= i < |times| ==> times[i].frame >= 0
    requires ts != [] ==> !SkipsToTwo(e.lastFrame, ts[0].frameNum)
    ensures ObserveAll(e, ts).0.dropDetect
    decreases |ts|
  {
    if ts != [] {
      var n := |ts| - 1;
      DropFrameKeepsFlag(e, ts[..n], times[..n]);
      if n > 0 {
        DropFrameSkips(times[n - 1]);
      }
    }
  }

  /** A frame 2 that skips its frame 1 in a minute that is not a multiple of ten sets the guess. */
  lemma SkipSetsFlag(e: Estimator, ts: seq<Tick>, i: nat)
    requires 0 < i < |ts|
    requires SkipsToTwo(ts[i - 1].frameNum, ts[i].frameNum) && ts[i].minutes % 10 != 0
    ensures ObserveAll(e, ts[..i + 1]).0.dropDetect
  {
    assert ts[..i + 1][..i] == ts[..i];
    assert ObserveAll(e, ts[..i]).0.lastFrame == ts[i - 1].frameNum;
  }

  /**
   * The frames after the `i`-th of a drop-frame run are a drop-frame run
   * themselves, and when the `i`-th is not the last of its second the next
   * one does not skip.
   */
  lemma RestOfRun(ts: seq<Tick>, times: seq<Time>, i: nat)
    requires DropFrameRun(ts, times) && i < |times| && 0 <= times[i].frame < 29
    ensures DropFrameRun(ts[i + 1..], times[i + 1..])
    ensures ts[i + 1..] != [] ==> !SkipsToTwo(ts[i].frameNum, ts[i + 1..][0].frameNum)
  {
  }

  /**
   * A drop-frame counter crossing into a minute that is not a multiple of ten
   * (frame 29 of second 59, then frame 2) makes the guess drop frame, and it
   * stays so for the rest of the run.
   */
  lemma DetectsDropFrame(e: Estimator, ts: seq<Tick>, times: seq<Time>, i: nat)
    requires DropFrameRun(ts, times)
    requires forall j :: 0 <= j < |times| ==> times[j].frame >= 0
    requires 0 < i < |times|
    requires times[i - 1].frame == 29 && times[i - 1].seconds >= 59 && (times[i - 1].minutes + 1) % 60 % 10 != 0
    ensures ObserveAll(e, ts).0.dropDetect
  {
    assert ts[..i + 1] + ts[i + 1..] == ts;
    DropFrameSkips(times[i - 1]);
    SkipSetsFlag(e, ts, i);
    var mid := ObserveAll(e, ts[..i + 1]);
    RestOfRun(ts, times, i);
    DropFrameKeepsFlag(mid.0, ts[i + 1..], times[i + 1..]);
    ObserveAllAppend(e, ts[..i + 1], ts[i + 1..]);
  }

  /** `Integer.toString` of a non-negative number. */
  function DecimalText(n: nat): (s: string)
    ensures |s| >= 1 && forall i :: 0 <= i < |s| ==> IsDecimal(s[i])
    decreases n
  {
    if n < 10 then [DigitChar(n)] else DecimalText(n / 10) + [DigitChar(n % 10)]
  }

  /** The number a decimal text denotes. */
  function ParseDecimal(s: string): int
    decreases |s|
  {
    if s == [] then 0 else ParseDecimal(s[..|s| - 1]) * 10 + (s[|s| - 1] as int - 48)
  }

  lemma {:induction false} ParseDecimalText(n: nat)
    ensures ParseDecimal(DecimalText(n)) == n
    decreases n
  {
    if n >= 10 {
      ParseDecimalText(n / 10);
      assert DecimalText(n)[..|DecimalText(n)| - 1] == DecimalText(n / 10);
    }
  }

  /** `Integer.toString` of any number. */
  function IntText(n: int): (s: string)
    ensures n >= 0 ==> |s| >= 1 && (forall i :: 0 <= i < |s| ==> IsDecimal(s[i])) && ParseDecimal(s) == n
    ensures n < 0 ==> |s| >= 2 && s[0] == '-' && (forall i :: 1 <= i < |s| ==> IsDecimal(s[i])) && ParseDecimal(s[1..]) == -n
  {
    if n < 0 then
      ParseDecimalText(-n);
      assert ("-" + DecimalText(-n))[1..] == DecimalText(-n);
      "-" + DecimalText(-n)
    else
      ParseDecimalText(n);
      DecimalText(n)
  }

  /**
   * The label text of a report: the rate, ` fps`, and ` (drop frame)` when
   * the guess says drop frame; the number in front reads back as the rate.
   */
  function RateText(r: RateReport): (s: string)
    ensures r.fps >= 0 ==>
              var k := |DecimalText(r.fps)|;
              k <= |s| && ParseDecimal(s[..k]) == r.fps &&
              s[k..] == " fps" + (if r.dropFrame then " (drop frame)" else "")
  {
    var s := IntText(r.fps) + " fps" + (if r.dropFrame then " (drop frame)" else "");
    if r.fps < 0 then s
    else
      ParseDecimalText(r.fps);
      assert s[..|DecimalText(r.fps)|] == DecimalText(r.fps);
      s
  }
}
