/**
 * NcPool: a fixed-capacity LIFO stack of element handles. `recycle` pushes,
 * `get` pops the most recently recycled element. Both guard their bound with
 * an `assert` that a release build compiles out, so an overfull `recycle`
 * and an empty `get` leave the pool unchanged.
 */
module Pool {
  import opened Wrappers

  datatype Pool<T> = Pool(items: seq<T>, max: nat) {
    predicate Valid() { |items| <= max }
    function Num(): nat { |items| }
  }

  /** `init`: room for `capacity` handles, none stored. */
  function Init<T>(capacity: nat): (p: Pool<T>)
    ensures p.Valid() && p.items == [] && p.max == capacity
  {
    Pool([], capacity)
  }

  /** `recycle`: push while `num + 1 <= max`; otherwise nothing changes. */
  function Recycle<T>(p: Pool<T>, x: T): (r: Pool<T>)
    ensures r.max == p.max
    ensures p.Num() + 1 <= p.max ==> r.items == p.items + [x]
    ensures p.Num() + 1 > p.max ==> r == p
    ensures p.Valid() ==> r.Valid()
  {
    if |p.items| + 1 <= p.max then p.(items := p.items + [x]) else p
  }

  /** `get`: pops the newest handle; an empty pool yields None (the null pointer). */
  function Get<T>(p: Pool<T>): (r: (Pool<T>, Option<T>))
    ensures r.0.max == p.max && (p.Valid() ==> r.0.Valid())
    ensures p.items != [] ==> r.1 == Some(p.items[|p.items| - 1]) && r.0.items == p.items[..|p.items| - 1]
    ensures p.items == [] ==> r == (p, None)
  {
    if |p.items| > 0 then (p.(items := p.items[..|p.items| - 1]), Some(p.items[|p.items| - 1])) else (p, None)
  }

  /** LIFO: getting right after recycling returns that element and the previous pool. */
  lemma GetUndoesRecycle<T>(p: Pool<T>, x: T)
    requires p.Valid() && p.Num() < p.max
    ensures Get(Recycle(p, x)) == (p, Some(x))
  {
    assert (p.items + [x])[..|p.items|] == p.items;
  }

  /** Recycling what `get` returned restores the pool. */
  lemma RecycleUndoesGet<T>(p: Pool<T>)
    requires p.Valid() && p.items != []
    ensures Recycle(Get(p).0, Get(p).1.value) == p
  {
    assert p.items[..|p.items| - 1] + [p.items[|p.items| - 1]] == p.items;
  }

  /** Recycles the handles in order (the emitter's `init` loop). */
  function RecycleAll<T>(p: Pool<T>, xs: seq<T>): (r: Pool<T>)
    requires p.Valid() && p.Num() + |xs| <= p.max
    ensures r.Valid() && r.max == p.max && r.items == p.items + xs
    decreases |xs|
  {
    if xs == [] then p
    else
      assert p.items + [xs[0]] + xs[1..] == p.items + xs;
      RecycleAll(Recycle(p, xs[0]), xs[1..])
  }
}
