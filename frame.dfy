/**
 * The LTC frame decoder (`TimeCode.decodeFrame`, apart from the running
 * estimator): the four 16-bit words collected between two syncs are split
 * into BCD digits, flag bits and user bits by fixed masks, the frame is
 * rejected when a units digit exceeds 9, and the time is rendered as
 * `HH:MM:SS:FF`, or `HH:MM:SS;FF` when the drop-frame flag is set.
 *
 * Word layout, bit 15 on the left (u = user bits, upper case = tens,
 * lower case = units):
 *   word 0  uuuu C d F F  uuuu ffff   frames;  d = drop frame (bit 10), C = colour frame (bit 11)
 *   word 1  uuuu x S S S  uuuu ssss   seconds; x = bit 27 of the frame
 *   word 2  uuuu x M M M  uuuu mmmm   minutes; x = bit 43 of the frame
 *   word 3  uuuu x c H H  uuuu hhhh   hours;   c = clock sync (bit 58), x = bit 59
 *
 * Java's `(w >> s) & m` with m = 2^k - 1 is written `w / 2^s % 2^k` and
 * `(w & 2^s) != 0` is written `w / 2^s % 2 == 1`; with Dafny's Euclidean
 * division these agree with Java's two's-complement operators on every int.
 *
 * The partner of the decoder is the encoder `EncodeFields`: the two are
 * proved mutually inverse, so every bit of the four words is accounted for.
 */
module Frame {
  import opened Wrappers
  import opened Hex
  import opened JavaInt

  /** A two-digit BCD field of the time: its tens and its units digit. */
  datatype Digits = Digits(tens: int, units: int)

  /** What the reader shows for one frame: the four two-digit fields, six flag bits and the user-bit text. */
  datatype DecodedFrame = DecodedFrame(
    hours: Digits, minutes: Digits, seconds: Digits, frames: Digits,
    dropFrame: bool,    // bit 10
    colorFrame: bool,   // bit 11
    bit27: bool,
    bit43: bool,
    clockSync: bool,    // bit 58
    bit59: bool,
    userBits: string)

  /** Digit bounds every decoded frame keeps: units at most 9, tens as wide as their masks. */
  predicate WellFormed(f: DecodedFrame)
  {
    0 <= f.hours.tens <= 3 && 0 <= f.hours.units <= 9 &&
    0 <= f.minutes.tens <= 7 && 0 <= f.minutes.units <= 9 &&
    0 <= f.seconds.tens <= 7 && 0 <= f.seconds.units <= 9 &&
    0 <= f.frames.tens <= 3 && 0 <= f.frames.units <= 9 &&
    |f.userBits| == 8 && IsHexText(f.userBits)
  }

  function Hours(f: DecodedFrame): int { f.hours.tens * 10 + f.hours.units }
  function Minutes(f: DecodedFrame): int { f.minutes.tens * 10 + f.minutes.units }
  function Seconds(f: DecodedFrame): int { f.seconds.tens * 10 + f.seconds.units }
  function FrameNumber(f: DecodedFrame): int { f.frames.tens * 10 + f.frames.units }

  /** `word & 0x0F`: the units digit of a word. */
  function Units(w: int): int { w % 16 }

  /** `(word & mask) != 0` for the single-bit mask 2^bit. */
  predicate Flag(w: int, bit: nat)
    requires bit == 10 || bit == 11
  {
    if bit == 10 then w / 1024 % 2 == 1 else w / 2048 % 2 == 1
  }

  /** The user bits: bits 15-12 and 7-4 of words 3, 2, 1 and 0, as lower-case hex digits. */
  function UserBitsText(w: seq<int>): (s: string)
    requires |w| == 4
    ensures |s| == 8 && forall i :: 0 <= i < 8 ==> IsHexDigit(s[i])
  {
    [HexDigit(w[3] / 4096 % 16), HexDigit(w[3] / 16 % 16),
     HexDigit(w[2] / 4096 % 16), HexDigit(w[2] / 16 % 16),
     HexDigit(w[1] / 4096 % 16), HexDigit(w[1] / 16 % 16),
     HexDigit(w[0] / 4096 % 16), HexDigit(w[0] / 16 % 16)]
  }

  /** The frame in the four words, or None when any units digit exceeds 9. */
  function DecodeFields(w: seq<int>): (r: Option<DecodedFrame>)
    requires |w| == 4
    ensures r.None? <==> exists k :: 0 <= k < 4 && Units(w[k]) > 9
    ensures r.Some? ==> WellFormed(r.value)
  {
    if Units(w[0]) > 9 || Units(w[1]) > 9 || Units(w[2]) > 9 || Units(w[3]) > 9 then None
    else Some(DecodedFrame(
      Digits(w[3] / 256 % 4, Units(w[3])),
      Digits(w[2] / 256 % 8, Units(w[2])),
      Digits(w[1] / 256 % 8, Units(w[1])),
      Digits(w[0] / 256 % 4, Units(w[0])),
      Flag(w[0], 10), Flag(w[0], 11), Flag(w[1], 11), Flag(w[2], 11), Flag(w[3], 10), Flag(w[3], 11),
      UserBitsText(w)))
  }

  function B(b: bool): int { if b then 1 else 0 }

  /**
   * A word from its fields: units in bits 0-3, user bits in 4-7, tens (with
   * bit 10 as their top bit where the tens need only two bits) in 8-10,
   * the flag in bit 11 and user bits in 12-15.
   */
  function Word(units: int, lowUser: int, tens: int, flag11: bool, highUser: int): int
  {
    units + 16 * lowUser + 256 * tens + 2048 * B(flag11) + 4096 * highUser
  }

  /** The LTC encoder: the four words that carry a frame. */
  function EncodeFields(f: DecodedFrame): (w: seq<int>)
    requires WellFormed(f)
    ensures |w| == 4 && forall k :: 0 <= k < 4 ==> 0 <= w[k] < 0x10000
  {
    var u := f.userBits;
    [Word(f.frames.units, DigitValue(u[7]), f.frames.tens + 4 * B(f.dropFrame), f.colorFrame, DigitValue(u[6])),
     Word(f.seconds.units, DigitValue(u[5]), f.seconds.tens, f.bit27, DigitValue(u[4])),
     Word(f.minutes.units, DigitValue(u[3]), f.minutes.tens, f.bit43, DigitValue(u[2])),
     Word(f.hours.units, DigitValue(u[1]), f.hours.tens + 4 * B(f.clockSync), f.bit59, DigitValue(u[0]))]
  }

  /** Euclidean division is unique: a quotient and remainder in range are `x / d` and `x % d`. */
  lemma DivMod(x: int, d: int, q: int, r: int)
    requires d > 0 && 0 <= r < d && x == q * d + r
    ensures x / d == q && x % d == r
  {
    var q', r' := x / d, x % d;
    assert (q - q') * d == r' - r;
    if q > q' {
      MulAtLeast(q - q', d);
    } else if q < q' {
      MulAtLeast(q' - q, d);
    }
  }

  /** A positive multiple of d is at least d. */
  lemma MulAtLeast(k: int, d: int)
    requires k >= 1 && d > 0
    ensures k * d >= d
  {
  }

  /** The fields of a word assembled from its parts read back as those parts. */
  lemma ReadFields(u: int, a: int, t: int, c: int, d: int, e: int)
    requires 0 <= u < 16 && 0 <= a < 16 && 0 <= t < 4 && 0 <= c < 2 && 0 <= d < 2 && 0 <= e < 16
    ensures var w := u + 16 * a + 256 * t + 1024 * c + 2048 * d + 4096 * e;
            w % 16 == u && w / 16 % 16 == a && w / 256 % 4 == t && w / 256 % 8 == t + 4 * c &&
            w / 1024 % 2 == c && w / 2048 % 2 == d && w / 4096 % 16 == e
  {
    var w := u + 16 * a + 256 * t + 1024 * c + 2048 * d + 4096 * e;
    DivMod(w, 16, a + 16 * t + 64 * c + 128 * d + 256 * e, u);
    DivMod(a + 16 * t + 64 * c + 128 * d + 256 * e, 16, t + 4 * c + 8 * d + 16 * e, a);
    DivMod(w, 256, t + 4 * c + 8 * d + 16 * e, u + 16 * a);
    DivMod(t + 4 * c + 8 * d + 16 * e, 4, c + 2 * d + 4 * e, t);
    DivMod(t + 4 * c + 8 * d + 16 * e, 8, d + 2 * e, t + 4 * c);
    DivMod(w, 1024, c + 2 * d + 4 * e, u + 16 * a + 256 * t);
    DivMod(c + 2 * d + 4 * e, 2, d + 2 * e, c);
    DivMod(w, 2048, d + 2 * e, u + 16 * a + 256 * t + 1024 * c);
    DivMod(d + 2 * e, 2, e, d);
    DivMod(w, 4096, e, u + 16 * a + 256 * t + 1024 * c + 2048 * d);
    DivMod(e, 16, 0, e);
  }

  /** The same for `Word`, whose tens field may carry bit 10 as its top bit. */
  lemma ReadWord(units: int, lowUser: int, tens: int, flag11: bool, highUser: int)
    requires 0 <= units < 16 && 0 <= lowUser < 16 && 0 <= tens < 8 && 0 <= highUser < 16
    ensures var w := Word(units, lowUser, tens, flag11, highUser);
            Units(w) == units && w / 16 % 16 == lowUser && w / 256 % 8 == tens &&
            w / 256 % 4 == tens % 4 && Flag(w, 10) == (tens >= 4) && Flag(w, 11) == flag11 &&
            w / 4096 % 16 == highUser
  {
    ReadFields(units, lowUser, tens % 4, tens / 4, B(flag11), highUser);
  }

  /** Every 16-bit word is the `Word` of its own fields. */
  lemma SplitFields(w: int)
    requires 0 <= w < 0x10000
    ensures w == Word(w % 16, w / 16 % 16, w / 256 % 8, Flag(w, 11), w / 4096 % 16)
    ensures w / 256 % 8 == w / 256 % 4 + 4 * B(Flag(w, 10))
  {
    assert w / 16 / 16 == w / 256;
    assert w / 256 / 4 == w / 1024;
    assert w / 256 / 8 == w / 2048;
    assert w / 1024 / 2 == w / 2048;
    assert w / 2048 / 2 == w / 4096;
  }

  /** The nibbles of a frame's user-bit text, in the order of the text. */
  function UserNibble(f: DecodedFrame, i: nat): int
    requires WellFormed(f) && i < 8
  {
    DigitValue(f.userBits[i])
  }

  /** Word 0 of an encoded frame holds the frame digits, both flags and user nibbles 7 and 6. */
  lemma EncodedWord0(f: DecodedFrame)
    requires WellFormed(f)
    ensures var w := EncodeFields(f)[0];
      Units(w) == f.frames.units && w / 256 % 4 == f.frames.tens &&
      Flag(w, 10) == f.dropFrame && Flag(w, 11) == f.colorFrame &&
      w / 16 % 16 == UserNibble(f, 7) && w / 4096 % 16 == UserNibble(f, 6)
  {
    var tens := f.frames.tens + 4 * B(f.dropFrame);
    assert EncodeFields(f)[0] == Word(f.frames.units, UserNibble(f, 7), tens, f.colorFrame, UserNibble(f, 6));
    assert tens % 4 == f.frames.tens && (tens >= 4) == f.dropFrame;
    ReadWord(f.frames.units, UserNibble(f, 7), tens, f.colorFrame, UserNibble(f, 6));
  }

  /** Word 1 of an encoded frame holds the seconds digits, bit 27 and user nibbles 5 and 4. */
  lemma EncodedWord1(f: DecodedFrame)
    requires WellFormed(f)
    ensures var w := EncodeFields(f)[1];
      Units(w) == f.seconds.units && w / 256 % 8 == f.seconds.tens && Flag(w, 11) == f.bit27 &&
      w / 16 % 16 == UserNibble(f, 5) && w / 4096 % 16 == UserNibble(f, 4)
  {
    assert EncodeFields(f)[1] == Word(f.seconds.units, UserNibble(f, 5), f.seconds.tens, f.bit27, UserNibble(f, 4));
    ReadWord(f.seconds.units, UserNibble(f, 5), f.seconds.tens, f.bit27, UserNibble(f, 4));
  }

  /** Word 2 of an encoded frame holds the minutes digits, bit 43 and user nibbles 3 and 2. */
  lemma EncodedWord2(f: DecodedFrame)
    requires WellFormed(f)
    ensures var w := EncodeFields(f)[2];
      Units(w) == f.minutes.units && w / 256 % 8 == f.minutes.tens && Flag(w, 11) == f.bit43 &&
      w / 16 % 16 == UserNibble(f, 3) && w / 4096 % 16 == UserNibble(f, 2)
  {
    assert EncodeFields(f)[2] == Word(f.minutes.units, UserNibble(f, 3), f.minutes.tens, f.bit43, UserNibble(f, 2));
    ReadWord(f.minutes.units, UserNibble(f, 3), f.minutes.tens, f.bit43, UserNibble(f, 2));
  }

  /** Word 3 of an encoded frame holds the hours digits, both flags and user nibbles 1 and 0. */
  lemma EncodedWord3(f: DecodedFrame)
    requires WellFormed(f)
    ensures var w := EncodeFields(f)[3];
      Units(w) == f.hours.units && w / 256 % 4 == f.hours.tens &&
      Flag(w, 10) == f.clockSync && Flag(w, 11) == f.bit59 &&
      w / 16 % 16 == UserNibble(f, 1) && w / 4096 % 16 == UserNibble(f, 0)
  {
    var tens := f.hours.tens + 4 * B(f.clockSync);
    assert EncodeFields(f)[3] == Word(f.hours.units, UserNibble(f, 1), tens, f.bit59, UserNibble(f, 0));
    assert tens % 4 == f.hours.tens && (tens >= 4) == f.clockSync;
    ReadWord(f.hours.units, UserNibble(f, 1), tens, f.bit59, UserNibble(f, 0));
  }

  /** The user-bit text read back from an encoded frame is the frame's own. */
  lemma UserBitsEncoded(f: DecodedFrame)
    requires WellFormed(f)
    ensures UserBitsText(EncodeFields(f)) == f.userBits
  {
    var u := f.userBits;
    forall i | 0 <= i < 8 ensures HexDigit(UserNibble(f, i)) == u[i] {
      CharRoundTrip(u[i]);
    }
    EncodedWord0(f);
    EncodedWord1(f);
    EncodedWord2(f);
    EncodedWord3(f);
  }

  /** Decoding what was encoded gives the frame back. */
  lemma DecodeEncode(f: DecodedFrame)
    requires WellFormed(f)
    ensures DecodeFields(EncodeFields(f)) == Some(f)
  {
    EncodedWord0(f);
    EncodedWord1(f);
    EncodedWord2(f);
    EncodedWord3(f);
    UserBitsEncoded(f);
  }

  /** The user nibble at text position i of a decoded frame is the nibble of the words it was read from. */
  lemma DecodedNibble(w: seq<int>, i: nat)
    requires |w| == 4 && i < 8 && DecodeFields(w).Some?
    ensures UserNibble(DecodeFields(w).value, i) ==
            if i % 2 == 0 then w[3 - i / 2] / 4096 % 16 else w[3 - i / 2] / 16 % 16
  {
    var n := if i % 2 == 0 then w[3 - i / 2] / 4096 % 16 else w[3 - i / 2] / 16 % 16;
    assert DecodeFields(w).value.userBits[i] == HexDigit(n);
    DigitRoundTrip(n);
  }

  /** Re-encoding a decoded frame gives each word back. */
  lemma EncodeDecodeWord0(w: seq<int>)
    requires |w| == 4 && forall j :: 0 <= j < 4 ==> 0 <= w[j] < 0x10000
    requires DecodeFields(w).Some?
    ensures EncodeFields(DecodeFields(w).value)[0] == w[0]
  {
    var f := DecodeFields(w).value;
    DecodedNibble(w, 7);
    DecodedNibble(w, 6);
    SplitFields(w[0]);
    assert f.frames.units == Units(w[0]) && f.frames.tens == w[0] / 256 % 4 && f.colorFrame == Flag(w[0], 11) && f.dropFrame == Flag(w[0], 10);
    assert EncodeFields(f)[0] == Word(Units(w[0]), UserNibble(f, 7), w[0] / 256 % 8, Flag(w[0], 11), UserNibble(f, 6));
  }

  lemma EncodeDecodeWord1(w: seq<int>)
    requires |w| == 4 && forall j :: 0 <= j < 4 ==> 0 <= w[j] < 0x10000
    requires DecodeFields(w).Some?
    ensures EncodeFields(DecodeFields(w).value)[1] == w[1]
  {
    var f := DecodeFields(w).value;
    DecodedNibble(w, 5);
    DecodedNibble(w, 4);
    SplitFields(w[1]);
    assert f.seconds.units == Units(w[1]) && f.seconds.tens == w[1] / 256 % 8 && f.bit27 == Flag(w[1], 11);
    assert EncodeFields(f)[1] == Word(Units(w[1]), UserNibble(f, 5), w[1] / 256 % 8, Flag(w[1], 11), UserNibble(f, 4));
  }

  lemma EncodeDecodeWord2(w: seq<int>)
    requires |w| == 4 && forall j :: 0 <= j < 4 ==> 0 <= w[j] < 0x10000
    requires DecodeFields(w).Some?
    ensures EncodeFields(DecodeFields(w).value)[2] == w[2]
  {
    var f := DecodeFields(w).value;
    DecodedNibble(w, 3);
    DecodedNibble(w, 2);
    SplitFields(w[2]);
    assert f.minutes.units == Units(w[2]) && f.minutes.tens == w[2] / 256 % 8 && f.bit43 == Flag(w[2], 11);
    assert EncodeFields(f)[2] == Word(Units(w[2]), UserNibble(f, 3), w[2] / 256 % 8, Flag(w[2], 11), UserNibble(f, 2));
  }

  lemma EncodeDecodeWord3(w: seq<int>)
    requires |w| == 4 && forall j :: 0 <= j < 4 ==> 0 <= w[j] < 0x10000
    requires DecodeFields(w).Some?
    ensures EncodeFields(DecodeFields(w).value)[3] == w[3]
  {
    var f := DecodeFields(w).value;
    DecodedNibble(w, 1);
    DecodedNibble(w, 0);
    SplitFields(w[3]);
    assert f.hours.units == Units(w[3]) && f.hours.tens == w[3] / 256 % 4 && f.bit59 == Flag(w[3], 11) && f.clockSync == Flag(w[3], 10);
    assert EncodeFields(f)[3] == Word(Units(w[3]), UserNibble(f, 1), w[3] / 256 % 8, Flag(w[3], 11), UserNibble(f, 0));
  }

  /** Encoding a decoded frame gives the words back: the decoder drops no bit. */
  lemma EncodeDecode(w: seq<int>)
    requires |w| == 4 && forall k :: 0 <= k < 4 ==> 0 <= w[k] < 0x10000
    requires DecodeFields(w).Some?
    ensures EncodeFields(DecodeFields(w).value) == w
  {
    EncodeDecodeWord0(w);
    EncodeDecodeWord1(w);
    EncodeDecodeWord2(w);
    EncodeDecodeWord3(w);
  }

  /** The character of a decimal digit (`Integer.toString` of a value in [0, 9]). */
  function DigitChar(d: int): char
    requires 0 <= d <= 9
  {
    (48 + d) as char
  }

  predicate IsDecimal(c: char)
  {
    '0' <= c <= '9'
  }

  function Decimal(hi: char, lo: char): int
  {
    (hi as int - 48) * 10 + (lo as int - 48)
  }

  /** The displayed time: `HH:MM:SS:FF`, with `;` before the frames when the drop-frame flag is set. */
  function TimecodeText(f: DecodedFrame): (s: string)
    requires WellFormed(f)
    ensures |s| == 11
  {
    [DigitChar(f.hours.tens), DigitChar(f.hours.units), ':',
     DigitChar(f.minutes.tens), DigitChar(f.minutes.units), ':',
     DigitChar(f.seconds.tens), DigitChar(f.seconds.units), if f.dropFrame then ';' else ':',
     DigitChar(f.frames.tens), DigitChar(f.frames.units)]
  }

  /** A time as the text shows it. */
  datatype Clock = Clock(hours: int, minutes: int, seconds: int, frames: int, dropFrame: bool)

  /** Reading `DD:DD:DD:DD` or `DD:DD:DD;DD` back. */
  function ParseTimecode(s: string): Option<Clock>
  {
    if |s| == 11 && IsDecimal(s[0]) && IsDecimal(s[1]) && s[2] == ':' &&
       IsDecimal(s[3]) && IsDecimal(s[4]) && s[5] == ':' &&
       IsDecimal(s[6]) && IsDecimal(s[7]) && (s[8] == ':' || s[8] == ';') &&
       IsDecimal(s[9]) && IsDecimal(s[10])
    then Some(Clock(Decimal(s[0], s[1]), Decimal(s[3], s[4]), Decimal(s[6], s[7]), Decimal(s[9], s[10]), s[8] == ';'))
    else None
  }

  /**
   * The text of a frame has the shape `DD:DD:DD[:;]DD` and reads back as the
   * frame's hours, minutes, seconds and frame number, with `;` exactly when
   * the drop-frame flag is set.
   */
  lemma TimecodeTextReads(f: DecodedFrame)
    requires WellFormed(f)
    ensures ParseTimecode(TimecodeText(f)) ==
            Some(Clock(Hours(f), Minutes(f), Seconds(f), FrameNumber(f), f.dropFrame))
  {
  }

  /** Eight hex digits of `s` starting at `start` denote `v`. */
  predicate HexField(s: string, start: nat, v: int)
  {
    start + 8 <= |s| && IsHexText(s[start..start + 8]) && ParseHex(s[start..start + 8]) == v
  }

  /**
   * The raw-frame log line: words 3, 2, 1 and 0 each as eight hex digits
   * (the unsigned value of the word), separated by `:` and ended by a newline.
   */
  function RawText(w: seq<int>): (line: string)
    requires |w| == 4 && forall k :: 0 <= k < 4 ==> IsInt32(w[k])
    ensures |line| == 36 && line[8] == ':' && line[17] == ':' && line[26] == ':' && line[35] == '\n'
    ensures HexField(line, 0, Unsigned32(w[3])) && HexField(line, 9, Unsigned32(w[2]))
    ensures HexField(line, 18, Unsigned32(w[1])) && HexField(line, 27, Unsigned32(w[0]))
  {
    var line := PaddedHex(w[3]) + [':'] + PaddedHex(w[2]) + [':'] + PaddedHex(w[1]) + [':'] + PaddedHex(w[0]) + ['\n'];
    assert line[0..8] == PaddedHex(w[3]) && line[9..17] == PaddedHex(w[2]);
    assert line[18..26] == PaddedHex(w[1]) && line[27..35] == PaddedHex(w[0]);
    line
  }

  /** Builds the raw-frame log line with `toHex`. */
  method RawFrameLine(w: seq<int>) returns (line: string)
    requires |w| == 4 && forall k :: 0 <= k < 4 ==> IsInt32(w[k])
    ensures line == RawText(w)
  {
    var h3 := ToHex(w[3]);
    var h2 := ToHex(w[2]);
    var h1 := ToHex(w[1]);
    var h0 := ToHex(w[0]);
    line := h3 + [':'] + h2 + [':'] + h1 + [':'] + h0 + ['\n'];
  }

  /** The log setting: what the reader appends to its log for each decoded frame. */
  datatype RecordMode = RecordTimecode | RecordBoth | RecordRaw | RecordNone

  /** The name of a log setting, as the Record menu lists it and the preferences store it. */
  function RecordName(mode: RecordMode): string
  {
    match mode
    case RecordNone => "None"
    case RecordTimecode => "Timecode"
    case RecordRaw => "Raw Frame"
    case RecordBoth => "TC + Raw Frame"
  }

  /**
   * The log setting a stored or chosen name stands for. A name that is not
   * one of the three logging settings matches no case of the log switch,
   * so it logs nothing, as "None" does.
   */
  function RecordSetting(name: string): (mode: RecordMode)
    ensures mode != RecordNone ==> RecordName(mode) == name
    ensures mode == RecordNone ==> forall m :: m != RecordNone ==> RecordName(m) != name
  {
    if name == "Timecode" then RecordTimecode
    else if name == "Raw Frame" then RecordRaw
    else if name == "TC + Raw Frame" then RecordBoth
    else RecordNone
  }

  /** Every setting survives being stored by name and read back. */
  lemma RecordNameRoundTrip(mode: RecordMode)
    ensures RecordSetting(RecordName(mode)) == mode
  {
  }

  /**
   * The log text for one frame: the timecode line, the raw-frame line, or
   * the timecode followed by ` - ` and the raw-frame line; nothing otherwise.
   */
  function LogEntry(mode: RecordMode, f: DecodedFrame, w: seq<int>): (entry: string)
    requires WellFormed(f)
    requires |w| == 4 && forall k :: 0 <= k < 4 ==> IsInt32(w[k])
    ensures mode == RecordNone <==> entry == []
    ensures mode == RecordTimecode ==> |entry| == 12 && entry[..11] == TimecodeText(f) && entry[11] == '\n'
    ensures mode == RecordBoth ==> |entry| == 50 && entry[..11] == TimecodeText(f) && entry[11..14] == " - " && entry[14..] == RawText(w)
    ensures mode == RecordRaw ==> entry == RawText(w)
  {
    match mode
    case RecordTimecode => TimecodeText(f) + "\n"
    case RecordBoth => TimecodeText(f) + " - " + RawText(w)
    case RecordRaw => RawText(w)
    case RecordNone => []
  }
}
