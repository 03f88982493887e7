/**
 * The doubling arrays of the backend: NkTextureAtlasRectArray and NkImageArray.
 * Both start with room for 16 elements, double their capacity when an `add`
 * would overflow it, and `reset` only forgets the elements.
 */
module GrowableArray {
  const InitialCapacity: nat := 16

  /** 16 * 2^k for some k: the only capacities the doubling rule can produce. */
  predicate DoubledCapacity(c: nat)
    decreases c
  {
    c == InitialCapacity || (c > InitialCapacity && c % 2 == 0 && DoubledCapacity(c / 2))
  }

  datatype GrowArray<T> = GrowArray(items: seq<T>, cap: nat) {
    predicate Valid() { |items| <= cap && DoubledCapacity(cap) }
    function Num(): nat { |items| }
  }

  /** `init`: no elements, capacity 16. */
  function Init<T>(): (a: GrowArray<T>)
    ensures a.Valid() && a.items == [] && a.cap == InitialCapacity
  {
    GrowArray([], InitialCapacity)
  }

  /** `add`: appends; the capacity doubles exactly when the array was full. */
  function Add<T>(a: GrowArray<T>, x: T): (r: GrowArray<T>)
    requires a.Valid()
    ensures r.Valid()
    ensures r.items == a.items + [x]
    ensures |a.items| < a.cap ==> r.cap == a.cap
    ensures |a.items| == a.cap ==> r.cap == 2 * a.cap
  {
    if |a.items| + 1 > a.cap then GrowArray(a.items + [x], a.cap * 2)
    else GrowArray(a.items + [x], a.cap)
  }

  /** Adding several elements one `add` at a time appends them in order. */
  function AddAll<T>(a: GrowArray<T>, xs: seq<T>): (r: GrowArray<T>)
    requires a.Valid()
    ensures r.Valid() && r.items == a.items + xs && r.cap >= a.cap
    decreases |xs|
  {
    if xs == [] then a else AddAll(Add(a, xs[0]), xs[1..])
  }

  /**
   * `remove(i)`: the last element moves into slot i (unless i is the last slot)
   * and the element count drops by one; the capacity is kept.
   */
  function Remove<T>(a: GrowArray<T>, i: nat): (r: GrowArray<T>)
    requires a.Valid() && i < |a.items|
    ensures r.Valid() && r.cap == a.cap && |r.items| == |a.items| - 1
    ensures multiset(r.items) + multiset{a.items[i]} == multiset(a.items)
    ensures forall j :: 0 <= j < |r.items| && j != i ==> r.items[j] == a.items[j]
    ensures i < |r.items| ==> r.items[i] == a.items[|a.items| - 1]
  {
    var last := |a.items| - 1;
    if |a.items| > 1 && i != last then
      RemoveShape(a.items, i);
      GrowArray(a.items[..i] + [a.items[last]] + a.items[i + 1..last], a.cap)
    else
      assert a.items == a.items[..last] + [a.items[last]];
      GrowArray(a.items[..last], a.cap)
  }

  /** Splitting a sequence around slot i and its last slot, as swap-remove does. */
  lemma RemoveShape<T>(s: seq<T>, i: nat)
    requires i < |s| - 1
    ensures s == s[..i] + [s[i]] + s[i + 1..|s| - 1] + [s[|s| - 1]]
  {
  }

  /** `reset`: forgets the elements, keeps the capacity. */
  function Reset<T>(a: GrowArray<T>): (r: GrowArray<T>)
    requires a.Valid()
    ensures r.Valid() && r.items == [] && r.cap == a.cap
  {
    a.(items := [])
  }
}
