/**
 * The Windows logging helpers: `tempString` and `logFmt` each format into one
 * of four static 4096-byte buffers, used round-robin, and `initMemoryFunctions`
 * installs the allocator hooks. Formatting itself (printf-style expansion) is
 * not modelled: the already formatted text is the input.
 */
module TempStrings {
  const BufferSize: nat := 4096
  const BufferCount: nat := 4

  /** The four buffers of one helper and the index of the next one to use. */
  datatype Ring = Ring(buffers: seq<string>, index: nat)
  {
    predicate Valid() { |buffers| == BufferCount && index < BufferCount }
  }

  /** Static storage starts zeroed: four empty strings, index 0. */
  function Init(): (r: Ring)
    ensures r.Valid() && r.index == 0
    ensures forall k :: 0 <= k < |r.buffers| ==> r.buffers[k] == ""
  {
    Ring(["", "", "", ""], 0)
  }

  /** The result of formatting into the ring: the new ring and the buffer handed back. */
  datatype Written = Written(ring: Ring, slot: nat)

  /**
   * `tempString`: writes the text into buffer `index`, advances the index
   * modulo 4 and returns that buffer. The text and its terminator must fit in
   * 4096 bytes: the bounded formatter rejects longer output.
   */
  function TempString(r: Ring, text: string): (w: Written)
    requires r.Valid() && |text| < BufferSize
    ensures w.ring.Valid() && w.slot == r.index
    ensures w.ring.buffers[w.slot] == text
    ensures w.ring.index == (r.index + 1) % BufferCount
    ensures forall k :: 0 <= k < BufferCount && k != w.slot ==> w.ring.buffers[k] == r.buffers[k]
  {
    Written(Ring(r.buffers[r.index := text], (r.index + 1) % BufferCount), r.index)
  }

  /**
   * `logFmt`: the same buffer rotation over its own ring; the formatted text is
   * also sent to the debugger and standard output, returned here as `emitted`.
   */
  datatype Logged = Logged(ring: Ring, emitted: string)

  function LogFmt(r: Ring, text: string): (l: Logged)
    requires r.Valid() && |text| < BufferSize
    ensures l.emitted == text && l.ring.Valid()
    ensures l.ring.buffers[r.index] == text && l.ring.index == (r.index + 1) % BufferCount
  {
    var w := TempString(r, text);
    Logged(w.ring, w.ring.buffers[w.slot])
  }

  /** Applies tempString to each text in turn. */
  function TempStrings(r: Ring, texts: seq<string>): (r': Ring)
    requires r.Valid() && forall i :: 0 <= i < |texts| ==> |texts[i]| < BufferSize
    ensures r'.Valid()
    ensures r'.index == (r.index + |texts|) % BufferCount
    decreases |texts|
  {
    if texts == [] then r else TempStrings(TempString(r, texts[0]).ring, texts[1..])
  }

  /**
   * A string returned by tempString stays intact through any three further
   * calls, and the fourth call hands out the same buffer again.
   */
  lemma {:induction false} SurvivesThreeCalls(r: Ring, text: string, later: seq<string>)
    requires r.Valid() && |text| < BufferSize && |later| <= 3
    requires forall i :: 0 <= i < |later| ==> |later[i]| < BufferSize
    ensures var w := TempString(r, text);
      TempStrings(w.ring, later).buffers[w.slot] == text
  {
    var w := TempString(r, text);
    KeepsUntouched(w.ring, later, w.slot);
  }

  /** Fewer calls than it takes the index to reach buffer k leave that buffer unchanged. */
  lemma {:induction false} KeepsUntouched(r: Ring, texts: seq<string>, k: nat)
    requires r.Valid() && forall i :: 0 <= i < |texts| ==> |texts[i]| < BufferSize
    requires k < BufferCount && |texts| <= (k + BufferCount - r.index) % BufferCount
    ensures TempStrings(r, texts).buffers[k] == r.buffers[k]
    decreases |texts|
  {
    if texts != [] {
      var w := TempString(r, texts[0]);
      assert w.slot != k;
      KeepsUntouched(w.ring, texts[1..], k);
    }
  }

  /** After four further calls, the buffer has been handed out again and overwritten. */
  lemma FourthCallReuses(r: Ring, text: string, a: string, b: string, c: string, d: string)
    requires r.Valid() && |text| < BufferSize
    requires |a| < BufferSize && |b| < BufferSize && |c| < BufferSize && |d| < BufferSize
    ensures var w := TempString(r, text);
      var r3 := TempStrings(w.ring, [a, b, c]);
      r3.index == w.slot && TempString(r3, d).slot == w.slot && TempString(r3, d).ring.buffers[w.slot] == d
  {
    var w := TempString(r, text);
    assert TempStrings(w.ring, [a, b, c]).index == (w.ring.index + 3) % BufferCount;
  }

  /** An allocator hook: absent (null), the C library's, or one supplied by the application. */
  datatype Hook = Null | Stdlib | Custom(id: nat)

  datatype MemoryFunctions = MemoryFunctions(realloc: Hook, free: Hook)

  /**
   * `initMemoryFunctions`: installs the given pair, but when either is null
   * both fall back to the C library's realloc and free.
   */
  function InitMemoryFunctions(realloc: Hook, free: Hook): (m: MemoryFunctions)
    ensures m.realloc != Null && m.free != Null
    ensures realloc != Null && free != Null ==> m == MemoryFunctions(realloc, free)
    ensures realloc == Null || free == Null ==> m == MemoryFunctions(Stdlib, Stdlib)
  {
    if realloc == Null || free == Null then MemoryFunctions(Stdlib, Stdlib)
    else MemoryFunctions(realloc, free)
  }

  /** A custom hook survives only together with its partner: one null discards the other. */
  lemma HalfPairDiscarded(id: nat)
    ensures InitMemoryFunctions(Custom(id), Null).realloc == Stdlib
    ensures InitMemoryFunctions(Null, Custom(id)).free == Stdlib
  {
  }
}
