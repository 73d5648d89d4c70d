/**
 * The LTC reader's `TimeCode` panel as a whole: audio blocks are turned into
 * samples, the samples drive the biphase-mark demodulator, the decoded bits
 * drive the sync/word assembler, and every complete frame it hands on is
 * decoded and shown, feeds the frame-rate and drop-frame estimates and, as
 * the log setting asks, is appended to the log.
 *
 * `State` and `StepModel` describe one sample's effect on values; the class
 * `LtcDecoder` keeps the same state in fields and updates it in place, and
 * each of its methods is proved to do what `StepModel`, `Run` and
 * `ApplyFrame` say. `RunFactors` shows that a run is the composition of the
 * three stages.
 */
module Decoder {
  import opened Wrappers
  import opened Bits
  import A = Assembler
  import opened Biphase
  import opened JavaInt
  import opened Pcm
  import opened Hex
  import opened Frame
  import E = Estimator

  /** What the panel shows and keeps between frames. */
  datatype Panel = Panel(
    est: E.Estimator,      // lastFrame, lastSecond, frameCount, dropDetect
    shown: DecodedFrame,   // the time, the six flag boxes and the user bits on display
    frameRate: string,     // the "Estimated Frame Rate" label
    log: string,           // the log text area
    record: RecordMode)    // the log setting

  /** The whole decoder state between two samples. */
  datatype State = State(demod: Demod, asm: A.Assembler, panel: Panel)

  /**
   * What every panel state keeps: the frame on display is well formed, the
   * estimator's last frame and last second are those of the frame on
   * display, and the frame count is a two-digit frame number.
   */
  predicate PanelInv(p: Panel)
  {
    WellFormed(p.shown) &&
    p.est.lastFrame == FrameNumber(p.shown) && p.est.lastSecond == p.shown.seconds.units &&
    0 <= p.est.frameCount <= 39
  }

  predicate Inv(s: State)
  {
    A.Valid(s.asm) && PanelInv(s.panel)
  }

  predicate Words(w: seq<int>)
  {
    |w| == 4 && forall k :: 0 <= k < 4 ==> IsInt32(w[k])
  }

  /**
   * The estimates observe a decoded frame; when the second changed, the
   * rate label shows the report.
   */
  function ObservePanel(p: Panel, f: DecodedFrame): (r: Panel)
    requires WellFormed(f)
    ensures r.shown == p.shown && r.log == p.log && r.record == p.record
    ensures 0 <= p.est.frameCount <= 39 ==> 0 <= r.est.frameCount <= 39
    ensures r.est.lastFrame == FrameNumber(f) && r.est.lastSecond == f.seconds.units
    ensures r.frameRate != p.frameRate ==> f.seconds.units != p.est.lastSecond
  {
    var o := E.Observe(p.est, FrameNumber(f), Minutes(f), f.seconds.units);
    E.ObserveBounds(p.est, FrameNumber(f), Minutes(f), f.seconds.units);
    p.(est := o.next, frameRate := if o.report.Some? then E.RateText(o.report.value) else p.frameRate)
  }

  /**
   * `decodeFrame`: a frame with a units digit above 9 is ignored; otherwise
   * it is observed by the estimates, shown and logged.
   */
  function ApplyFrame(p: Panel, w: seq<int>): (r: Panel)
    requires Words(w)
    ensures PanelInv(p) ==> PanelInv(r)
    ensures DecodeFields(w).None? ==> r == p
    ensures DecodeFields(w).Some? ==>
              r.shown == DecodeFields(w).value && r.record == p.record &&
              r.log == p.log + LogEntry(p.record, r.shown, w)
    ensures DecodeFields(w).Some? && r.frameRate != p.frameRate ==> r.shown.seconds.units != p.est.lastSecond
  {
    match DecodeFields(w)
    case None => p
    case Some(f) => ObservePanel(p, f).(shown := f, log := p.log + LogEntry(p.record, f, w))
  }

  /** A panel that observed, shows and logged the frame decoded from `w` is the panel `ApplyFrame` gives. */
  lemma ShowsDecoded(p: Panel, w: seq<int>, f: DecodedFrame, q: Panel)
    requires Words(w) && DecodeFields(w) == Some(f)
    requires var o := E.Observe(p.est, FrameNumber(f), Minutes(f), f.seconds.units);
             q.est == o.next && q.frameRate == if o.report.Some? then E.RateText(o.report.value) else p.frameRate
    requires q.shown == f && q.log == p.log + LogEntry(p.record, f, w) && q.record == p.record
    ensures q == ApplyFrame(p, w)
  {
  }

  /** Every frame the encoder produces is shown as that frame. */
  lemma ShowsEncodedFrame(p: Panel, f: DecodedFrame)
    requires WellFormed(f)
    ensures Words(EncodeFields(f)) && ApplyFrame(p, EncodeFields(f)).shown == f
  {
    DecodeEncode(f);
  }

  /** The panel after the frames `ws`, oldest first. */
  function ApplyAll(p: Panel, ws: seq<seq<int>>): (r: Panel)
    requires forall i :: 0 <= i < |ws| ==> Words(ws[i])
    ensures PanelInv(p) ==> PanelInv(r)
    decreases |ws|
  {
    if ws == [] then p else ApplyFrame(ApplyAll(p, ws[..|ws| - 1]), ws[|ws| - 1])
  }

  /**
   * A bit from the demodulator: it is pushed into the assembler, and a frame
   * that it completes is decoded onto the panel.
   */
  function TakeBit(asm: A.Assembler, panel: Panel, bit: bool): (r: (A.Assembler, Panel))
    requires A.Valid(asm)
    ensures A.Valid(r.0) && (PanelInv(panel) ==> PanelInv(r.1))
  {
    var p := A.PushBit(asm, bit);
    (p.next, if p.payload.Some? then ApplyFrame(panel, p.payload.value) else panel)
  }

  /** A bit that completes the sync clears the assembler and hands on the slots when all four are filled. */
  lemma TakeSync(a: A.Assembler, p: Panel, bit: bool, q: Panel)
    requires A.Valid(a) && Shift(a.frameWord, bit) == A.SYNC
    requires q == if a.frameIndex == 4 then ApplyFrame(p, a.frame) else p
    ensures TakeBit(a, p, bit) == (A.Cleared(a.frame), q)
  {
  }

  /** Any other bit only moves the assembler on. */
  lemma TakeWord(a: A.Assembler, p: Panel, bit: bool, next: A.Assembler)
    requires A.Valid(a) && Shift(a.frameWord, bit) != A.SYNC
    requires next == A.PushBit(a, bit).next
    ensures TakeBit(a, p, bit) == (next, p)
  {
  }

  /** One sample through the whole decoder. */
  function StepModel(s: State, sample: int): (r: State)
    requires A.Valid(s.asm)
    ensures A.Valid(r.asm)
    ensures Inv(s) ==> Inv(r)
  {
    var d := DemodStep(s.demod, sample);
    match d.bit
    case None => s.(demod := d.next)
    case Some(b) =>
      var t := TakeBit(s.asm, s.panel, b);
      State(d.next, t.0, t.1)
  }

  /** A state assembled from the three stages' results is the state `StepModel` gives. */
  lemma StepParts(s: State, sample: int, demod: Demod, asm: A.Assembler, panel: Panel)
    requires Inv(s)
    requires demod == DemodStep(s.demod, sample).next
    requires DemodStep(s.demod, sample).bit.None? ==> asm == s.asm && panel == s.panel
    requires DemodStep(s.demod, sample).bit.Some? ==>
               (asm, panel) == TakeBit(s.asm, s.panel, DemodStep(s.demod, sample).bit.value)
    ensures State(demod, asm, panel) == StepModel(s, sample) && Inv(State(demod, asm, panel))
  {
  }

  /** The samples `xs`, oldest first, through the whole decoder. */
  function Run(s: State, xs: seq<int>): (r: State)
    requires A.Valid(s.asm)
    ensures A.Valid(r.asm)
    ensures Inv(s) ==> Inv(r)
    decreases |xs|
  {
    if xs == [] then s else StepModel(Run(s, xs[..|xs| - 1]), xs[|xs| - 1])
  }

  lemma RunSnoc(s: State, xs: seq<int>, x: int)
    requires A.Valid(s.asm)
    ensures Run(s, xs + [x]) == StepModel(Run(s, xs), x)
  {
    assert (xs + [x])[..|xs|] == xs;
  }

  lemma PayloadWords(a: A.Assembler, bs: seq<bool>)
    requires A.Valid(a)
    ensures forall i :: 0 <= i < |A.Payloads(a, bs)| ==> Words(A.Payloads(a, bs)[i])
  {
  }

  /**
   * The decoder is the three stages in a row: after the samples `xs` the
   * demodulator is where `DemodRun` leaves it, the assembler is where the
   * demodulated bits leave it, and the panel has seen exactly the payloads
   * those bits hand on.
   */
  lemma {:induction false} RunFactors(s: State, xs: seq<int>)
    requires A.Valid(s.asm)
    ensures var bits := DemodRun(s.demod, xs).1;
            Run(s, xs) == State(DemodRun(s.demod, xs).0, A.Feed(s.asm, bits), ApplyAll(s.panel, A.Payloads(s.asm, bits)))
    decreases |xs|
  {
    if xs != [] {
      var init, x := xs[..|xs| - 1], xs[|xs| - 1];
      RunFactors(s, init);
      var bits0 := DemodRun(s.demod, init).1;
      var d := DemodStep(DemodRun(s.demod, init).0, x);
      PayloadWords(s.asm, bits0);
      var ws0 := A.Payloads(s.asm, bits0);
      if d.bit.Some? {
        var bits := bits0 + [d.bit.value];
        assert DemodRun(s.demod, xs).1 == bits;
        assert bits[..|bits| - 1] == bits0;
        var p := A.PushBit(A.Feed(s.asm, bits0), d.bit.value);
        assert TakeBit(A.Feed(s.asm, bits0), ApplyAll(s.panel, ws0), d.bit.value).0 == p.next;
        PayloadWords(s.asm, bits);
        if p.payload.Some? {
          var ws := ws0 + [p.payload.value];
          assert A.Payloads(s.asm, bits) == ws;
          assert ws[..|ws| - 1] == ws0;
        } else {
          assert A.Payloads(s.asm, bits) == ws0 + [] == ws0;
        }
      } else {
        assert DemodRun(s.demod, xs).1 == bits0 + [] == bits0;
      }
    }
  }

  /** The frame the constructor decodes: all four words zero. */
  const ZeroFrame := DecodedFrame(Digits(0, 0), Digits(0, 0), Digits(0, 0), Digits(0, 0), false, false, false, false, false, false, "00000000")

  /**
   * The state after construction: everything zero or false, the slots
   * zero, the rate label `--`, the log empty and set to record nothing, and
   * the all-zero frame on display.
   */
  function Initial(): (s: State)
    ensures Inv(s)
    ensures DecodeFields([0, 0, 0, 0]) == Some(s.panel.shown)
  {
    State(Demod(0, 0, 0, false, false), A.Cleared([0, 0, 0, 0]),
          Panel(E.Estimator(0, 0, 0, false), ZeroFrame, "--", "", RecordNone))
  }

  /** The initial state shows the all-zero frame as `00:00:00:00`. */
  lemma InitialState()
    ensures TimecodeText(Initial().panel.shown) == "00:00:00:00"
  {
    InitialText();
  }

  /** Four zero words decode to the all-zero frame. */
  lemma ZeroWords(w: seq<int>)
    requires |w| == 4 && w[0] == 0 && w[1] == 0 && w[2] == 0 && w[3] == 0
    ensures DecodeFields(w) == Some(ZeroFrame)
  {
  }

  /**
   * The all-zero frame the constructor decodes: from the panel it starts
   * with (estimates zero, rate label `--`, an empty log that records
   * nothing, whatever is on display), decoding four zero words gives the
   * initial panel.
   */
  lemma ConstructorDecode(p: Panel, w: seq<int>)
    requires |w| == 4 && w[0] == 0 && w[1] == 0 && w[2] == 0 && w[3] == 0
    requires p.est == Initial().panel.est && p.frameRate == Initial().panel.frameRate
    requires p.log == Initial().panel.log && p.record == Initial().panel.record
    ensures Words(w) && ApplyFrame(p, w) == Initial().panel
  {
    ZeroWords(w);
  }

  lemma InitialText()
    ensures TimecodeText(ZeroFrame) == "00:00:00:00"
  {
  }

  /** Whether `process` gets through a block of `count` bytes without an exception. */
  predicate Accepts(format: Option<AudioFormat>, count: int, length: int)
  {
    format.Some? && Supported(format.value) &&
    (count == -1 || (0 <= count <= length && count % 2 == 0))
  }

  /** The `TimeCode` panel's decoding state, updated in place. */
  class LtcDecoder {
    var format: Option<AudioFormat>
    var skipBit: bool
    var bitValue: bool
    var dropDetect: bool
    const frame: array<int>
    var bitCount: int
    var frameIndex: int
    var lastInterval: int
    var frameWord: int
    var lastSample: int
    var interval: int
    var lastFrame: int
    var lastSecond: int
    var frameCount: int
    var shown: DecodedFrame
    var frameRate: string
    var log: string
    var recordWhat: RecordMode

    /** The demodulator fields read as a `Demod`. */
    ghost function DemodModel(): Demod
      reads this`lastSample, this`interval, this`lastInterval, this`skipBit, this`bitValue
    {
      Demod(lastSample, interval, lastInterval, skipBit, bitValue)
    }

    /** The register, the counters and the slots read as an `Assembler`. */
    ghost function AsmModel(): A.Assembler
      reads this`frameWord, this`bitCount, this`frameIndex, frame
    {
      A.Assembler(frameWord, bitCount, frameIndex, frame[..])
    }

    /** The estimate fields read as an `Estimator`. */
    ghost function EstModel(): E.Estimator
      reads this`lastFrame, this`lastSecond, this`frameCount, this`dropDetect
    {
      E.Estimator(lastFrame, lastSecond, frameCount, dropDetect)
    }

    /** What the panel shows and keeps, read as a `Panel`. */
    ghost function PanelModel(): Panel
      reads this`lastFrame, this`lastSecond, this`frameCount, this`dropDetect
      reads this`shown, this`frameRate, this`log, this`recordWhat
    {
      Panel(EstModel(), shown, frameRate, log, recordWhat)
    }

    /** The fields read as a `State`. */
    ghost function Model(): State
      reads this`lastSample, this`interval, this`lastInterval, this`skipBit, this`bitValue
      reads this`frameWord, this`bitCount, this`frameIndex, frame
      reads this`lastFrame, this`lastSecond, this`frameCount, this`dropDetect
      reads this`shown, this`frameRate, this`log, this`recordWhat
    {
      State(DemodModel(), AsmModel(), PanelModel())
    }

    ghost predicate Valid()
      reads this`frameWord, this`bitCount, this`frameIndex, frame
      reads this`lastFrame, this`lastSecond, this`frameCount, this`dropDetect
      reads this`shown, this`frameRate, this`log, this`recordWhat
    {
      frame.Length == 4 && A.Valid(AsmModel()) && PanelInv(PanelModel())
    }

    /** The panel starts zeroed, with no input format, and decodes an all-zero frame once. */
    constructor ()
      ensures Valid() && format == None && Model() == Initial()
      ensures fresh(frame)
    {
      format := None;
      skipBit, bitValue, dropDetect := false, false, false;
      frame := new int[] [0, 0, 0, 0];
      bitCount, frameIndex, lastInterval, frameWord := 0, 0, 0, 0;
      lastSample, interval, lastFrame, lastSecond, frameCount := 0, 0, 0, 0, 0;
      frameRate := "--";
      log := "";
      recordWhat := RecordNone;
      new;
      assert AsmModel() == Initial().asm;
      assert DemodModel() == Initial().demod;
      DecodeZeros();
    }

    /** `decodeFrame(new int[4])` on the freshly zeroed panel. */
    method DecodeZeros()
      requires EstModel() == Initial().panel.est && frameRate == Initial().panel.frameRate
      requires log == Initial().panel.log && recordWhat == Initial().panel.record
      modifies this`dropDetect, this`lastFrame, this`lastSecond, this`frameCount, this`frameRate, this`shown, this`log
      ensures PanelModel() == Initial().panel
    {
      var zeros := new int[] [0, 0, 0, 0];
      ghost var p := PanelModel();
      ConstructorDecode(p, zeros[..]);
      DecodeFrame(zeros);
    }

    /** `selectInput`: the format of the chosen input becomes the format blocks are read in. */
    method SelectInput(f: AudioFormat)
      modifies this
      ensures format == Some(f)
      ensures Model() == old(Model())
    {
      format := Some(f);
    }

    /** The start of the decoding thread clears the drop-frame guess, both bit flags and the register. */
    method Restart()
      requires Valid()
      modifies this
      ensures Valid() && format == old(format)
      ensures var s := old(Model());
              Model() == State(s.demod.(skipBit := false, bitValue := false),
                               s.asm.(frameWord := 0),
                               s.panel.(est := s.panel.est.(dropDetect := false)))
    {
      dropDetect, skipBit, bitValue := false, false, false;
      frameWord := 0;
    }

    /** `decodeFrame` on the four words of `words`. */
    method DecodeFrame(words: array<int>)
      requires words.Length == 4 && Words(words[..])
      modifies this`dropDetect, this`lastFrame, this`lastSecond, this`frameCount, this`frameRate, this`shown, this`log
      ensures PanelModel() == ApplyFrame(old(PanelModel()), words[..])
    {
      ghost var p := PanelModel();
      ghost var w := words[..];
      var frmUnits := words[0] % 16;
      var frmTens := words[0] / 256 % 4;
      var secUnits := words[1] % 16;
      var secTens := words[1] / 256 % 8;
      var minUnits := words[2] % 16;
      var minTens := words[2] / 256 % 8;
      var hrsUnits := words[3] % 16;
      var hrsTens := words[3] / 256 % 4;
      if frmUnits > 9 || secUnits > 9 || minUnits > 9 || hrsUnits > 9 {
        assert DecodeFields(w).None?;
        return;
      }
      var bit10 := words[0] / 1024 % 2 == 1;
      var bit11 := words[0] / 2048 % 2 == 1;
      var bit27 := words[1] / 2048 % 2 == 1;
      var bit43 := words[2] / 2048 % 2 == 1;
      var bit58 := words[3] / 1024 % 2 == 1;
      var bit59 := words[3] / 2048 % 2 == 1;
      var userFields :=
        [HexDigit(words[3] / 4096 % 16), HexDigit(words[3] / 16 % 16),
         HexDigit(words[2] / 4096 % 16), HexDigit(words[2] / 16 % 16),
         HexDigit(words[1] / 4096 % 16), HexDigit(words[1] / 16 % 16),
         HexDigit(words[0] / 4096 % 16), HexDigit(words[0] / 16 % 16)];
      var f := DecodedFrame(Digits(hrsTens, hrsUnits), Digits(minTens, minUnits), Digits(secTens, secUnits), Digits(frmTens, frmUnits),
                            bit10, bit11, bit27, bit43, bit58, bit59, userFields);
      assert userFields == UserBitsText(w);
      assert DecodeFields(w) == Some(f);
      Show(f, words[..]);
      ShowsDecoded(p, w, f, PanelModel());
    }

    /** The rest of `decodeFrame`, once the frame `f` in the words `w` passed the digit check. */
    method Show(f: DecodedFrame, w: seq<int>)
      requires WellFormed(f) && Words(w)
      modifies this`dropDetect, this`lastFrame, this`lastSecond, this`frameCount, this`frameRate, this`shown, this`log
      ensures var o := E.Observe(old(EstModel()), FrameNumber(f), Minutes(f), f.seconds.units);
              EstModel() == o.next && frameRate == if o.report.Some? then E.RateText(o.report.value) else old(frameRate)
      ensures shown == f
      ensures log == old(log) + LogEntry(recordWhat, f, w)
      ensures recordWhat == old(recordWhat)
    {
      var frameNum := f.frames.tens * 10 + f.frames.units;
      var minsNum := f.minutes.tens * 10 + f.minutes.units;
      assert frameNum == FrameNumber(f) && minsNum == Minutes(f);
      Estimate(frameNum, minsNum, f.seconds.units);
      shown := f;
      Record(f, w);
    }

    /** The drop-frame check and the rate update of `decodeFrame`. */
    method Estimate(frameNum: int, minsNum: int, secUnits: int)
      modifies this`dropDetect, this`lastFrame, this`lastSecond, this`frameCount, this`frameRate
      ensures var o := E.Observe(old(EstModel()), frameNum, minsNum, secUnits);
              EstModel() == o.next &&
              frameRate == if o.report.Some? then E.RateText(o.report.value) else old(frameRate)
    {
      if frameNum == 2 && lastFrame != 1 {
        dropDetect := minsNum % 10 != 0;
      }
      lastFrame := frameNum;
      if secUnits != lastSecond {
        lastSecond := secUnits;
        frameRate := E.RateText(E.RateReport(frameCount + 1, dropDetect));
        frameCount := 0;
      }
      frameCount := E.Max(frameCount, frameNum);
    }

    /**
     * A new log setting, by name: the Record menu's action and the reading
     * of the stored preference at start-up. Nothing else changes.
     */
    method SetRecord(name: string)
      modifies this`recordWhat
      ensures recordWhat == RecordSetting(name)
    {
      recordWhat := RecordSetting(name);
    }

    /** The log switch of `decodeFrame`, on the words `w` of the frame `f`. */
    method Record(f: DecodedFrame, w: seq<int>)
      requires WellFormed(f) && Words(w)
      modifies this`log
      ensures log == old(log) + LogEntry(recordWhat, f, w)
    {
      match recordWhat {
        case RecordTimecode =>
          log := log + (TimecodeText(f) + "\n");
        case RecordBoth =>
          // appends the timecode and falls through to the raw-frame case
          var time := TimecodeText(f) + " - ";
          var hex := RawFrameLine(w);
          assert log + time + hex == log + (time + hex);
          log := log + time;
          log := log + hex;
        case RecordRaw =>
          var hex := RawFrameLine(w);
          log := log + hex;
        case RecordNone =>
      }
    }

    /** The body of `process`'s sample loop: one sample through the demodulator and the assembler. */
    method Step(sample: int)
      requires Valid()
      modifies this`lastSample, this`interval, this`lastInterval, this`frameWord, this`bitValue, this`skipBit
      modifies this`bitCount, this`frameIndex, frame
      modifies this`dropDetect, this`lastFrame, this`lastSecond, this`frameCount, this`frameRate, this`shown, this`log
      ensures Valid()
      ensures Model() == StepModel(old(Model()), sample)
    {
      ghost var s0 := Model();
      ghost var d := DemodStep(s0.demod, sample);
      var dx := lastSample - sample;
      var lastSign := lastSample > 0;
      var sampleSign := sample > 0;
      if Abs(dx) > 10 && lastSign != sampleSign {
        assert IsTransition(lastSample, sample);
        if skipBit {
          // the second transition inside a '1' cell
          assert d.bit.None?;
          skipBit := false;
        } else {
          assert d.bit == Some(Classify(interval, lastInterval, bitValue));
          DecodeBit();
        }
        lastInterval := interval;
        interval := 0;
      } else {
        interval := Int32(interval + 1);
      }
      lastSample := sample;
      StepParts(s0, sample, DemodModel(), AsmModel(), PanelModel());
    }

    /** A transition that ends a bit cell: the bit is told, shifted in and assembled. */
    method DecodeBit()
      requires Valid() && !skipBit
      modifies this`frameWord, this`bitValue, this`skipBit, this`bitCount, this`frameIndex, frame
      modifies this`dropDetect, this`lastFrame, this`lastSecond, this`frameCount, this`frameRate, this`shown, this`log
      ensures Valid()
      ensures var bit := Classify(interval, lastInterval, old(bitValue));
              bitValue == bit && skipBit == bit &&
              (AsmModel(), PanelModel()) == TakeBit(old(AsmModel()), old(PanelModel()), bit)
    {
      ghost var register := frameWord;
      Demodulate();
      Assemble(register);
    }

    /**
     * A transition that ends a bit cell: the bit is told from the interval,
     * shifted into the register as its new bit 15 and kept as the last bit;
     * a '1' skips the transition in the middle of its cell.
     */
    method Demodulate()
      requires !skipBit && 0 <= frameWord < 0x10000
      modifies this`frameWord, this`bitValue, this`skipBit
      ensures var bit := Classify(interval, lastInterval, old(bitValue));
              frameWord == Shift(old(frameWord), bit) && bitValue == bit && skipBit == bit
    {
      if interval > Int32(lastInterval + lastInterval / 2) {
        frameWord := frameWord / 2;
        bitValue := false;
      } else if interval < Int32(lastInterval - lastInterval / 4) {
        frameWord := frameWord / 2 + 0x8000;
        bitValue := true;
        skipBit := true;
      } else {
        frameWord := frameWord / 2;
        if bitValue {
          // `|= 0x8000` on a register below 0x8000
          frameWord := frameWord + 0x8000;
          skipBit := true;
        }
      }
    }

    /**
     * The register, which held `register` before the bit `bitValue` was
     * shifted in, is tested for sync; a sync decodes the slots when all four
     * are filled and clears the counters, otherwise a completed word is
     * stored in the next slot.
     */
    method Assemble(ghost register: int)
      requires frame.Length == 4 && A.Valid(A.Assembler(register, bitCount, frameIndex, frame[..]))
      requires frameWord == Shift(register, bitValue)
      modifies this`frameWord, this`bitCount, this`frameIndex, frame
      modifies this`dropDetect, this`lastFrame, this`lastSecond, this`frameCount, this`frameRate, this`shown, this`log
      ensures (AsmModel(), PanelModel()) == TakeBit(old(A.Assembler(register, bitCount, frameIndex, frame[..])), old(PanelModel()), bitValue)
    {
      ghost var a, p := A.Assembler(register, bitCount, frameIndex, frame[..]), PanelModel();
      if frameWord == A.SYNC {
        if frameIndex == 4 {
          DecodeFrame(frame);
        }
        frameIndex := 0;
        bitCount := 0;
        frameWord := 0;
        TakeSync(a, p, bitValue, PanelModel());
      } else {
        bitCount := bitCount + 1;
        if bitCount >= 16 {
          if frameIndex < 4 {
            frame[frameIndex] := frameWord;
            assert frame[..] == a.frame[frameIndex := frameWord];
            frameIndex := frameIndex + 1;
          } else {
            frameIndex := 0;
          }
          bitCount := 0;
        }
        TakeWord(a, p, bitValue, AsmModel());
      }
    }

    /**
     * `process` on the first `count` bytes of `buffer`: without an exception
     * (a supported format and a whole number of byte pairs within the
     * buffer, or the end-of-stream count -1) the samples of those bytes run
     * through the decoder; otherwise nothing changes.
     */
    method Process(buffer: array<JByte>, count: int) returns (ok: bool)
      requires Valid()
      modifies this, frame
      ensures Valid() && format == old(format)
      ensures ok <==> Accepts(format, count, buffer.Length)
      ensures !ok ==> Model() == old(Model())
      ensures ok ==> Model() == Run(old(Model()), Samples(buffer[..if count == -1 then 0 else count], format.value.bigEndian))
    {
      if !Accepts(format, count, buffer.Length) {
        return false;
      }
      ok := true;
      var used := if count == -1 then 0 else count;
      ghost var input := Samples(buffer[..used], format.value.bigEndian);
      var samples := ToSamples(buffer, used, format.value.bigEndian);
      ghost var start := Model();
      assert start == old(Model());
      var k := 0;
      while k < samples.Length
        modifies this, frame
        invariant 0 <= k <= samples.Length
        invariant Valid() && format == old(format)
        invariant Model() == Run(start, samples[..k])
      {
        assert samples[..k + 1] == samples[..k] + [samples[k]];
        RunSnoc(start, samples[..k], samples[k]);
        Step(samples[k]);
        k := k + 1;
      }
      assert samples[..k] == samples[..] == input;
      assert buffer[..used] == old(buffer[..used]);
    }
  }
}
