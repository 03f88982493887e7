/**
 * Frame-slot rotation of NkCanvasBase: `currentFrame` counts frames from 1,
 * `currentFrameIndex` selects one of the two per-frame slots, and each slot
 * remembers the fence value it must wait on before its resources are reused.
 * Fences are plain counters: a wait returns the value waited on.
 */
module FrameClock {
  import opened CanvasLimits

  datatype Clock = Clock(currentFrame: nat, slot: nat, lastSlot: nat, waits: seq<nat>) {
    predicate Valid() { slot < MaxFrames && lastSlot < MaxFrames && |waits| == MaxFrames }
  }

  /**
   * The canvas is zero-allocated, so the slot and both wait values start at 0;
   * `init` then sets `currentFrame` to 1.
   */
  function Init(): (c: Clock)
    ensures c.Valid() && c.currentFrame == 1 && c.slot == 0 && c.waits == [0, 0]
  {
    Clock(1, 0, 0, [0, 0])
  }

  /** `beginFrame`: the value the current slot's fence is waited on. */
  function WaitValue(c: Clock): nat
    requires c.Valid()
  {
    c.waits[c.slot]
  }

  /** Every recorded wait value belongs to an earlier frame. */
  predicate ClockConsistent(c: Clock)
    requires c.Valid()
  {
    forall s :: 0 <= s < MaxFrames ==> c.waits[s] < c.currentFrame
  }

  /**
   * `swapFrame`: signal the current slot with `currentFrame`, remember it as the
   * slot's wait value, advance the frame and select slot `currentFrame mod 2`.
   */
  function Swap(c: Clock): (r: Clock)
    requires c.Valid()
    ensures r.Valid()
    ensures r.currentFrame == c.currentFrame + 1 && r.lastSlot == c.slot
    ensures r.slot == r.currentFrame % MaxFrames
    ensures r.waits[c.slot] == c.currentFrame
    ensures forall s :: 0 <= s < MaxFrames && s != c.slot ==> r.waits[s] == c.waits[s]
    ensures ClockConsistent(c) ==> ClockConsistent(r)
  {
    Clock(c.currentFrame + 1, (c.currentFrame + 1) % MaxFrames, c.slot, c.waits[c.slot := c.currentFrame])
  }

  /** The clock after n completed frames. */
  function AfterFrames(n: nat): (c: Clock)
    ensures c.Valid()
  {
    if n == 0 then Init() else Swap(AfterFrames(n - 1))
  }

  /** The slot frame f (counting from 1) renders into. */
  function SlotOf(f: nat): nat { if f <= 1 then 0 else f % MaxFrames }

  /** The most recent frame among 1..n that rendered into slot s, or 0 if none did. */
  function LastUse(s: nat, n: nat): nat
  {
    if n == 0 then 0 else if SlotOf(n) == s then n else LastUse(s, n - 1)
  }

  /**
   * After n frames the clock is at frame n + 1 in slot SlotOf(n + 1), and each
   * slot waits on the last frame that used it.
   */
  lemma {:induction false} AfterFramesState(n: nat)
    ensures AfterFrames(n).currentFrame == n + 1
    ensures AfterFrames(n).slot == SlotOf(n + 1)
    ensures forall s :: 0 <= s < MaxFrames ==> AfterFrames(n).waits[s] == LastUse(s, n)
  {
    if n > 0 {
      AfterFramesState(n - 1);
    }
  }

  /**
   * The first two frames share slot 0, so frame 2 waits for frame 1 and frame 3
   * waits for nothing; from frame 4 on, frame f waits for frame f - 2.
   */
  lemma FrameWaits(f: nat)
    requires f >= 1
    ensures WaitValue(AfterFrames(f - 1)) == if f == 1 then 0 else if f == 2 then 1 else if f == 3 then 0 else f - 2
  {
    AfterFramesState(f - 1);
    if f >= 4 {
      assert SlotOf(f) == SlotOf(f - 2);
      assert SlotOf(f - 1) != SlotOf(f);
      assert LastUse(SlotOf(f), f - 1) == LastUse(SlotOf(f), f - 2) == f - 2;
    }
  }

  /** The slots used by frames 1, 2, 3, 4: the first two frames both use slot 0. */
  lemma FirstSlots()
    ensures AfterFrames(0).slot == 0 && AfterFrames(1).slot == 0
    ensures AfterFrames(2).slot == 1 && AfterFrames(3).slot == 0
  {
  }
}
