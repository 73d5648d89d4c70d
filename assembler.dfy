/**
 * The sync/word assembler of the LTC reader (the part of `TimeCode.process`
 * that runs after a bit has been decoded).
 *
 * Every decoded bit is shifted into `frameWord`, which is compared with the
 * sync word after every bit. Without a sync, `bitCount` counts the bits of
 * the current 16-bit word; each full word is stored in the next of the four
 * slots of `frame`, and a fifth word wraps `frameIndex` back to 0 without
 * being stored. On a sync the four slots are handed on as a frame payload,
 * but only when all four were filled since the last sync; the counters and
 * the register are cleared either way.
 */
module Assembler {
  import opened Wrappers
  import opened Bits

  /** The sync pattern 1011 1111 1111 1100 as it stands in the register after its last bit. */
  const SYNC := 0xBFFC

  /** The state of the assembler: the register, the bit and word counters and the word slots. */
  datatype Assembler = Assembler(frameWord: int, bitCount: int, frameIndex: int, frame: seq<int>)

  /** The outcome of one bit: the next state and, on a sync after four words, the payload. */
  datatype Pushed = Pushed(next: Assembler, payload: Option<seq<int>>)

  predicate IsWord(w: int)
  {
    0 <= w < 0x10000
  }

  /** The ranges the assembler keeps: a 16-bit register, bitCount in [0,15], frameIndex in [0,4]. */
  predicate Valid(a: Assembler)
  {
    IsWord(a.frameWord) && 0 <= a.bitCount < 16 && 0 <= a.frameIndex <= 4 &&
    |a.frame| == 4 && forall k :: 0 <= k < 4 ==> IsWord(a.frame[k])
  }

  /** The state right after a sync: everything cleared, the slots left as they were. */
  function Cleared(frame: seq<int>): Assembler
  {
    Assembler(0, 0, 0, frame)
  }

  /** Position of the assembler in the 80-bit cycle of four 16-bit words and a sync. */
  function Position(a: Assembler): int
  {
    16 * a.frameIndex + a.bitCount
  }

  /** One decoded bit arrives: shift it in, then test for sync or store a completed word. */
  function PushBit(a: Assembler, bit: bool): (r: Pushed)
    requires Valid(a)
    ensures Valid(r.next)
    ensures r.payload.Some? <==> Shift(a.frameWord, bit) == SYNC && a.frameIndex == 4
    ensures r.payload.Some? ==> r.payload.value == a.frame
    ensures Shift(a.frameWord, bit) == SYNC ==> r.next == Cleared(a.frame)
    ensures Shift(a.frameWord, bit) != SYNC ==>
              r.next.frameWord == Shift(a.frameWord, bit) &&
              Position(r.next) == (Position(a) + 1) % 80
    ensures forall k :: 0 <= k < 4 && k != a.frameIndex ==> r.next.frame[k] == a.frame[k]
    ensures Shift(a.frameWord, bit) != SYNC && a.bitCount == 15 && a.frameIndex < 4 ==>
              r.next.frame[a.frameIndex] == Shift(a.frameWord, bit) && r.next.frameIndex == a.frameIndex + 1
    ensures Shift(a.frameWord, bit) != SYNC && a.bitCount == 15 && a.frameIndex == 4 ==>
              r.next.frame == a.frame && r.next.frameIndex == 0
    ensures Shift(a.frameWord, bit) != SYNC && a.bitCount < 15 ==> r.next.frame == a.frame
  {
    var w := Shift(a.frameWord, bit);
    if w == SYNC then
      Pushed(Cleared(a.frame), if a.frameIndex == 4 then Some(a.frame) else None)
    else if a.bitCount + 1 >= 16 then
      if a.frameIndex < 4 then
        Pushed(Assembler(w, 0, a.frameIndex + 1, a.frame[a.frameIndex := w]), None)
      else
        Pushed(Assembler(w, 0, 0, a.frame), None)
    else
      Pushed(Assembler(w, a.bitCount + 1, a.frameIndex, a.frame), None)
  }

  /** The state after the bits `bs`, oldest first (payloads dropped). */
  function Feed(a: Assembler, bs: seq<bool>): (r: Assembler)
    requires Valid(a)
    ensures Valid(r)
    decreases |bs|
  {
    if bs == [] then a else PushBit(Feed(a, bs[..|bs| - 1]), bs[|bs| - 1]).next
  }

  /** The payloads handed on while the bits `bs` arrive, in order. */
  function Payloads(a: Assembler, bs: seq<bool>): (r: seq<seq<int>>)
    requires Valid(a)
    ensures forall i :: 0 <= i < |r| ==> |r[i]| == 4 && forall k :: 0 <= k < 4 ==> IsWord(r[i][k])
    decreases |bs|
  {
    if bs == [] then []
    else
      var p := PushBit(Feed(a, bs[..|bs| - 1]), bs[|bs| - 1]).payload;
      Payloads(a, bs[..|bs| - 1]) + (if p.Some? then [p.value] else [])
  }

  /** No prefix of `bs` leaves the sync word in a register cleared before `bs`. */
  ghost predicate NoSyncWithin(bs: seq<bool>)
  {
    forall j :: 0 < j <= |bs| ==> WordOf(bs[..j]) != SYNC
  }

  /** Where the current 80-bit cycle began, counted in bits since the register was cleared. */
  function CycleStart(n: nat): nat
  {
    n - n % 80
  }

  /** The k-th 16-bit group of the current cycle, as the register would hold it. */
  function Group(bs: seq<bool>, k: nat): int
    requires CycleStart(|bs|) + 16 * k + 16 <= |bs|
  {
    var base := CycleStart(|bs|);
    WordOf(bs[base + 16 * k .. base + 16 * k + 16])
  }

  /**
   * From a cleared assembler, as long as no sync is seen: the register holds
   * the window on the bits received, (frameIndex, bitCount) counts them modulo
   * 80, and each filled slot holds one 16-bit group of the current cycle.
   */
  ghost predicate Aligned(a: Assembler, bs: seq<bool>)
  {
    Valid(a) &&
    a.frameWord == WordOf(bs) &&
    Position(a) == |bs| % 80 &&
    forall k :: 0 <= k < a.frameIndex ==>
      CycleStart(|bs|) + 16 * k + 16 <= |bs| && a.frame[k] == Group(bs, k)
  }

  /** A group completed before the last bit of a cycle is not changed by that bit. */
  lemma GroupKept(init: seq<bool>, b: bool, k: nat)
    requires |init| % 80 != 79
    requires CycleStart(|init|) + 16 * k + 16 <= |init|
    ensures CycleStart(|init + [b]|) + 16 * k + 16 <= |init + [b]|
    ensures Group(init + [b], k) == Group(init, k)
  {
    var bs := init + [b];
    var base := CycleStart(|init|);
    assert CycleStart(|bs|) == base;
    assert bs[base + 16 * k .. base + 16 * k + 16] == init[base + 16 * k .. base + 16 * k + 16];
  }

  /** A group that the last bit completes is the window the register holds. */
  lemma GroupCompleted(bs: seq<bool>, k: nat)
    requires CycleStart(|bs|) + 16 * k + 16 == |bs|
    ensures Group(bs, k) == WordOf(bs)
  {
    var base := CycleStart(|bs|);
    var window := bs[base + 16 * k..];
    assert bs == bs[..base + 16 * k] + window;
    WordOfWindow(bs[..base + 16 * k], window);
    assert bs[base + 16 * k .. base + 16 * k + 16] == window;
  }

  /** One bit that does not complete a sync keeps the assembler aligned with the bits received. */
  lemma AlignedStep(a: Assembler, init: seq<bool>, b: bool)
    requires Aligned(a, init)
    requires WordOf(init + [b]) != SYNC
    ensures Aligned(PushBit(a, b).next, init + [b])
  {
    var bs := init + [b];
    assert bs[..|bs| - 1] == init;
    var a' := PushBit(a, b).next;
    var n := |init|;
    if n % 80 != 79 {
      assert CycleStart(|bs|) == CycleStart(n);
      forall k | 0 <= k < a'.frameIndex
        ensures CycleStart(|bs|) + 16 * k + 16 <= |bs| && a'.frame[k] == Group(bs, k)
      {
        if k < a.frameIndex {
          GroupKept(init, b, k);
        } else {
          assert k == a.frameIndex && a'.frame[k] == WordOf(bs);
          GroupCompleted(bs, k);
        }
      }
    }
  }

  lemma {:induction false} FeedAligned(frame: seq<int>, bs: seq<bool>)
    requires Valid(Cleared(frame))
    requires NoSyncWithin(bs)
    ensures Aligned(Feed(Cleared(frame), bs), bs)
  {
    if bs != [] {
      var init, b := bs[..|bs| - 1], bs[|bs| - 1];
      assert init + [b] == bs;
      assert NoSyncWithin(init) by {
        forall j | 0 < j <= |init| ensures WordOf(init[..j]) != SYNC {
          assert init[..j] == bs[..j];
        }
      }
      FeedAligned(frame, init);
      assert bs[..|bs|] == bs;
      AlignedStep(Feed(Cleared(frame), init), init, b);
    }
  }

  /**
   * When a sync completes after the bits `bs` received since the last clear:
   * the assembler is cleared, and a payload is handed on exactly when at
   * least 64 bits of the current 80-bit cycle were received, i.e. all four
   * slots were filled; its words are the four consecutive 16-bit groups of
   * that cycle, first received in word 0.
   */
  lemma SyncPayload(frame: seq<int>, bs: seq<bool>, b: bool)
    requires Valid(Cleared(frame))
    requires NoSyncWithin(bs)
    requires WordOf(bs + [b]) == SYNC
    ensures var r := PushBit(Feed(Cleared(frame), bs), b);
            r.next.frameWord == 0 && r.next.bitCount == 0 && r.next.frameIndex == 0 &&
            (r.payload.Some? <==> |bs| % 80 >= 64) &&
            (r.payload.Some? ==>
               CycleStart(|bs|) + 64 <= |bs| &&
               forall k :: 0 <= k < 4 ==> r.payload.value[k] == Group(bs, k))
  {
    assert (bs + [b])[..|bs + [b]| - 1] == bs;
    var a := Feed(Cleared(frame), bs);
    FeedAligned(frame, bs);
    assert Shift(a.frameWord, b) == SYNC;
    assert a.frameIndex == 4 <==> |bs| % 80 >= 64;
  }

  /** A sync arriving in an aligned assembler after a full cycle hands on the four groups of that cycle. */
  lemma AlignedPayload(a: Assembler, bs: seq<bool>, b: bool)
    requires Aligned(a, bs)
    requires |bs| % 80 >= 64
    requires WordOf(bs + [b]) == SYNC
    ensures CycleStart(|bs|) + 64 <= |bs|
    ensures PushBit(a, b).payload == Some([Group(bs, 0), Group(bs, 1), Group(bs, 2), Group(bs, 3)])
  {
    assert (bs + [b])[..|bs + [b]| - 1] == bs;
    var r := PushBit(a, b);
    var g := [Group(bs, 0), Group(bs, 1), Group(bs, 2), Group(bs, 3)];
    assert r.payload.value == g by {
      forall k | 0 <= k < 4 ensures r.payload.value[k] == g[k] { }
    }
  }

  /** In the first cycle after a clear, the groups are bits 0-15, 16-31, 32-47 and 48-63. */
  lemma FirstCycle(bs: seq<bool>)
    requires 64 <= |bs| < 80
    ensures CycleStart(|bs|) == 0
    ensures [Group(bs, 0), Group(bs, 1), Group(bs, 2), Group(bs, 3)] ==
            [WordOf(bs[0..16]), WordOf(bs[16..32]), WordOf(bs[32..48]), WordOf(bs[48..64])]
  {
  }

  /**
   * Resynchronisation: whatever the state before, a sync followed by one
   * LTC frame (64 data bits and up to 15 further bits, the last 16 of them
   * ending in the sync word) hands on exactly the four 16-bit data words.
   */
  lemma Resynchronises(a: Assembler, s: bool, bs: seq<bool>, b: bool)
    requires Valid(a)
    requires Shift(a.frameWord, s) == SYNC
    requires NoSyncWithin(bs)
    requires 64 <= |bs| < 80
    requires WordOf(bs + [b]) == SYNC
    ensures PushBit(Feed(PushBit(a, s).next, bs), b).payload ==
            Some([WordOf(bs[0..16]), WordOf(bs[16..32]), WordOf(bs[32..48]), WordOf(bs[48..64])])
  {
    var c := PushBit(a, s).next;
    assert c == Cleared(a.frame);
    FeedAligned(a.frame, bs);
    FirstCycle(bs);
    AlignedPayload(Feed(c, bs), bs, b);
  }
}
