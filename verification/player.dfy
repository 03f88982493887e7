/**
 * The bookkeeping of the example game's player: the particle emitter, which
 * moves particles between its pool and the active list, and the bomb pool.
 * Particles and bombs are named by their index in the fixed arrays that
 * hold them; motion, colour and randomness are not modelled.
 */
module Player {
  import opened Wrappers
  import opened Pool

  const ParticleCount: nat := 128
  const BombCount: nat := 32

  /** The handles 0, 1, …, n - 1 in order. */
  function Handles(n: nat): (r: seq<nat>)
    ensures |r| == n && forall i :: 0 <= i < n ==> r[i] == i
  {
    seq(n, i requires 0 <= i < n => i)
  }

  /** Erases the first occurrence of x, keeping the order of the rest (`vector::erase`). */
  function Erase(s: seq<nat>, x: nat): (r: seq<nat>)
    ensures multiset(r) == multiset(s) - multiset{x}
    ensures x !in s ==> r == s
    ensures x in s ==> |r| == |s| - 1
  {
    if s == [] then []
    else if s[0] == x then
      assert s == [s[0]] + s[1..];
      s[1..]
    else
      assert s == [s[0]] + s[1..];
      [s[0]] + Erase(s[1..], x)
  }

  // ------------------------------------------------------------ particles

  /** NcParticleEmitter: the pool of idle particles, the active list, and each particle's lifetime. */
  datatype Emitter = Emitter(pool: Pool<nat>, active: seq<nat>, lifetimes: seq<real>)

  /** Every particle is either idle in the pool or on the active list, exactly once. */
  predicate Conserved(e: Emitter)
  {
    e.pool.Valid() && e.pool.max == ParticleCount && |e.lifetimes| == ParticleCount
    && multiset(e.pool.items) + multiset(e.active) == multiset(Handles(ParticleCount))
  }

  /** A conserved emitter holds ParticleCount particles in all, with no handle twice. */
  lemma ConservedCounts(e: Emitter)
    requires Conserved(e)
    ensures |e.pool.items| + |e.active| == ParticleCount
    ensures forall p :: p in e.active ==> p < ParticleCount && p !in e.pool.items
  {
    assert |multiset(e.pool.items) + multiset(e.active)| == |multiset(Handles(ParticleCount))|;
    forall p | p in e.active ensures p < ParticleCount && p !in e.pool.items {
      assert multiset(Handles(ParticleCount))[p] >= 1;
      HandlesOnce(ParticleCount, p);
    }
  }

  lemma HandlesOnce(n: nat, p: nat)
    ensures multiset(Handles(n))[p] == if p < n then 1 else 0
    decreases n
  {
    if n > 0 {
      assert Handles(n) == Handles(n - 1) + [n - 1];
      HandlesOnce(n - 1, p);
    }
  }

  /** Emitter `init`: all 128 particles go into a pool of that capacity, in index order. */
  function InitEmitter(lifetimes: seq<real>): (e: Emitter)
    requires |lifetimes| == ParticleCount
    ensures Conserved(e) && e.active == [] && e.pool.Num() == ParticleCount
  {
    Emitter(RecycleAll(Init<nat>(ParticleCount), Handles(ParticleCount)), [], lifetimes)
  }

  /** Takes n particles from the pool, newest first, gives each lifetime 2 and appends it to the active list. */
  function Emit(e: Emitter, n: nat): (r: Emitter)
    requires Conserved(e) && n <= e.pool.Num()
    ensures Conserved(r)
    ensures r.pool.items == e.pool.items[..e.pool.Num() - n]
    ensures |r.active| == |e.active| + n && r.active[..|e.active|] == e.active
    ensures forall p :: 0 <= p < ParticleCount ==>
      r.lifetimes[p] == if p in r.active[|e.active|..] then 2.0 else e.lifetimes[p]
    decreases n
  {
    if n == 0 then
      assert e.pool.items[..e.pool.Num()] == e.pool.items;
      e
    else
      var (pool, got) := Get(e.pool);
      var p := got.value;
      var items := e.pool.items;
      assert items == pool.items + [p];
      HandlesOnce(ParticleCount, p);
      var next := Emitter(pool, e.active + [p], e.lifetimes[p := 2.0]);
      var r := Emit(next, n - 1);
      assert pool.items[..pool.Num() - (n - 1)] == items[..|items| - n];
      assert r.active[..|e.active|] == next.active[..|e.active|];
      assert r.active[|e.active|..] == [p] + r.active[|next.active|..];
      r
  }

  /** Emitter `explode`: the count is cut down to the idle particles, which become active. */
  function EmitterExplode(e: Emitter, count: nat): (r: Emitter)
    requires Conserved(e)
    ensures Conserved(r)
    ensures |r.active| - |e.active| == if count < e.pool.Num() then count else e.pool.Num()
    ensures count >= e.pool.Num() ==> r.pool.items == []
  {
    Emit(e, if count < e.pool.Num() then count else e.pool.Num())
  }

  /** The active particles whose new lifetime is below zero, in list order. */
  function Expired(active: seq<nat>, lifetimes: seq<real>): (r: seq<nat>)
    requires forall i :: 0 <= i < |active| ==> active[i] < |lifetimes|
    ensures forall i :: 0 <= i < |r| ==> r[i] in active && lifetimes[r[i]] < 0.0
    ensures forall p :: p in active && lifetimes[p] < 0.0 ==> p in r
    ensures multiset(r) <= multiset(active)
    decreases |active|
  {
    if active == [] then []
    else
      var n := |active| - 1;
      var front := Expired(active[..n], lifetimes);
      assert active == active[..n] + [active[n]];
      if lifetimes[active[n]] < 0.0 then front + [active[n]] else front
  }

  /** Erases each listed particle from the active list and recycles it, in list order. */
  function RecycleEach(e: Emitter, list: seq<nat>): (r: Emitter)
    requires Conserved(e) && multiset(list) <= multiset(e.active)
    ensures Conserved(r) && r.lifetimes == e.lifetimes
    ensures r.pool.items == e.pool.items + list
    ensures multiset(r.active) == multiset(e.active) - multiset(list)
    decreases |list|
  {
    if list == [] then
      assert e.pool.items + list == e.pool.items;
      e
    else
      var p := list[0];
      assert list == [p] + list[1..];
      assert multiset(list)[p] >= 1;
      var next := RecycleOne(e, p);
      SubtractHead(list, multiset(e.active));
      var r := RecycleEach(next, list[1..]);
      RecycleStep(e, list, next, r);
      r
  }

  lemma SubtractHead(list: seq<nat>, m: multiset<nat>)
    requires list != [] && multiset(list) <= m
    ensures multiset(list[1..]) <= m - multiset{list[0]}
  {
    assert list == [list[0]] + list[1..];
  }

  lemma RecycleStep(e: Emitter, list: seq<nat>, next: Emitter, r: Emitter)
    requires list != [] && multiset(list) <= multiset(e.active)
    requires next.pool.items == e.pool.items + [list[0]] && multiset(next.active) == multiset(e.active) - multiset{list[0]}
    requires r.pool.items == next.pool.items + list[1..] && multiset(r.active) == multiset(next.active) - multiset(list[1..])
    ensures r.pool.items == e.pool.items + list && multiset(r.active) == multiset(e.active) - multiset(list)
  {
    assert list == [list[0]] + list[1..];
    assert e.pool.items + [list[0]] + list[1..] == e.pool.items + list;
  }

  /** Erases one active particle from the list and recycles it; the pool always has room for it. */
  function RecycleOne(e: Emitter, p: nat): (r: Emitter)
    requires Conserved(e) && p in e.active
    ensures Conserved(r) && r.lifetimes == e.lifetimes
    ensures r.pool.items == e.pool.items + [p] && multiset(r.active) == multiset(e.active) - multiset{p}
  {
    ConservedCounts(e);
    Emitter(Recycle(e.pool, p), Erase(e.active, p), e.lifetimes)
  }

  /** Every active particle's lifetime drops by the elapsed time. */
  function Tick(e: Emitter, elapsed: real): (r: seq<real>)
    requires |e.lifetimes| == ParticleCount
    ensures |r| == ParticleCount
    ensures forall p :: 0 <= p < ParticleCount ==> r[p] == if p in e.active then e.lifetimes[p] - elapsed else e.lifetimes[p]
  {
    seq(ParticleCount, p requires 0 <= p < ParticleCount =>
      if p in e.active then e.lifetimes[p] - elapsed else e.lifetimes[p])
  }

  /**
   * Emitter `update`: every active particle's lifetime drops by the elapsed
   * time; those now below zero leave the active list and go back to the pool.
   */
  function EmitterUpdate(e: Emitter, elapsed: real): (r: Emitter)
    requires Conserved(e)
    ensures Conserved(r)
    ensures forall p :: p in r.active ==> p in e.active && 0 <= p < ParticleCount && r.lifetimes[p] >= 0.0
    ensures forall p :: 0 <= p < ParticleCount && p in e.active ==> r.lifetimes[p] == e.lifetimes[p] - elapsed
    ensures forall p :: 0 <= p < ParticleCount && p in e.active ==> (p in r.active <==> r.lifetimes[p] >= 0.0)
    ensures forall p :: 0 <= p < ParticleCount && p in e.active && r.lifetimes[p] < 0.0 ==> p in r.pool.items
    ensures e.pool.items <= r.pool.items
  {
    ConservedCounts(e);
    assert forall i :: 0 <= i < |e.active| ==> e.active[i] in e.active;
    var lifetimes := Tick(e, elapsed);
    var expired := Expired(e.active, lifetimes);
    var r := RecycleEach(e.(lifetimes := lifetimes), expired);
    UpdateFacts(e, elapsed, lifetimes, expired, r);
    r
  }

  lemma UpdateFacts(e: Emitter, elapsed: real, lifetimes: seq<real>, expired: seq<nat>, r: Emitter)
    requires Conserved(e) && |lifetimes| == ParticleCount
    requires forall p :: 0 <= p < ParticleCount ==> lifetimes[p] == if p in e.active then e.lifetimes[p] - elapsed else e.lifetimes[p]
    requires forall i :: 0 <= i < |expired| ==> expired[i] in e.active && expired[i] < ParticleCount && lifetimes[expired[i]] < 0.0
    requires forall p :: 0 <= p < ParticleCount && p in e.active && lifetimes[p] < 0.0 ==> p in expired
    requires Conserved(r) && r.lifetimes == lifetimes && r.pool.items == e.pool.items + expired
    requires multiset(r.active) == multiset(e.active) - multiset(expired)
    ensures forall p :: p in r.active ==> p in e.active && 0 <= p < ParticleCount && r.lifetimes[p] >= 0.0
    ensures forall p :: 0 <= p < ParticleCount && p in e.active ==> r.lifetimes[p] == e.lifetimes[p] - elapsed
    ensures forall p :: 0 <= p < ParticleCount && p in e.active ==> (p in r.active <==> r.lifetimes[p] >= 0.0)
    ensures forall p :: 0 <= p < ParticleCount && p in e.active && r.lifetimes[p] < 0.0 ==> p in r.pool.items
    ensures e.pool.items <= r.pool.items
  {
    ConservedCounts(e);
    ConservedCounts(r);
    forall p | p in r.active ensures p in e.active && 0 <= p < ParticleCount && lifetimes[p] >= 0.0 {
      assert p in multiset(r.active);
      ActiveOnce(e, p);
    }
    forall p | 0 <= p < ParticleCount && p in e.active && lifetimes[p] >= 0.0 ensures p in r.active {
      assert p !in expired;
      assert multiset(r.active)[p] == multiset(e.active)[p];
    }
  }

  lemma ActiveOnce(e: Emitter, p: nat)
    requires Conserved(e)
    ensures multiset(e.active)[p] <= 1
  {
    HandlesOnce(ParticleCount, p);
  }

  /** A particle that has just been emitted lives for the first two seconds of updates. */
  lemma EmittedSurvivesShortUpdate(e: Emitter, count: nat, elapsed: real)
    requires Conserved(e) && 0.0 <= elapsed <= 2.0 && count > 0 && e.pool.Num() > 0
    ensures var x := EmitterExplode(e, count);
      var u := EmitterUpdate(x, elapsed);
      var p := x.active[|x.active| - 1];
      p !in e.active && p in u.active
  {
    var x := EmitterExplode(e, count);
    var p := x.active[|x.active| - 1];
    ConservedCounts(x);
    ConservedCounts(e);
    assert p in x.active;
    assert p !in e.active by {
      assert x.active[..|e.active|] == e.active;
      var n := if count < e.pool.Num() then count else e.pool.Num();
      assert |x.active| == |e.active| + n;
      assert multiset(x.active) == multiset(e.active) + multiset(x.active[|e.active|..]) by {
        assert x.active == e.active + x.active[|e.active|..];
      }
      HandlesOnce(ParticleCount, p);
      assert multiset(x.active)[p] <= 1;
    }
  }

  // ---------------------------------------------------------------- bombs

  /** The bomb bookkeeping of NcPlayer: bombs in flight, idle bombs, and the throw cooldown. */
  datatype Bombs = Bombs(bombs: seq<nat>, recycled: seq<nat>, bombTimer: real, wasBombThrown: bool)

  /** Each of the player's bombs is in exactly one of the two lists, once. */
  predicate BombsConserved(b: Bombs)
  {
    multiset(b.bombs) + multiset(b.recycled) == multiset(Handles(BombCount))
  }

  /** Player `init`: every bomb idle, none in flight, no cooldown. */
  function InitBombs(): (b: Bombs)
    ensures BombsConserved(b) && b.bombs == [] && |b.recycled| == BombCount && b.bombTimer == 0.0
  {
    Bombs([], Handles(BombCount), 0.0, false)
  }

  /**
   * `spawnBomb`: with an idle bomb and the cooldown over, the newest idle
   * bomb is thrown and the cooldown restarts at 6; otherwise nothing
   * happens. The throw's speed and direction are not modelled.
   */
  function SpawnBomb(b: Bombs): (r: (Bombs, Option<nat>))
    ensures BombsConserved(b) ==> BombsConserved(r.0)
    ensures r.1.None? <==> b.recycled == [] || b.bombTimer > 0.0
    ensures r.1.None? ==> r.0 == b
    ensures r.1.Some? ==>
      r.1.value == b.recycled[|b.recycled| - 1] && r.0.bombs == b.bombs + [r.1.value]
      && r.0.recycled + [r.1.value] == b.recycled && r.0.bombTimer == 6.0 && r.0.wasBombThrown
  {
    if |b.recycled| > 0 && b.bombTimer <= 0.0 then
      var bomb := b.recycled[|b.recycled| - 1];
      var rest := b.recycled[..|b.recycled| - 1];
      assert b.recycled == rest + [bomb];
      (Bombs(b.bombs + [bomb], rest, 6.0, true), Some(bomb))
    else (b, None)
  }

  /** The cooldown means a second throw straight after the first does nothing. */
  lemma SpawnTwiceThrowsOnce(b: Bombs)
    ensures SpawnBomb(SpawnBomb(b).0).1.None?
    ensures SpawnBomb(b).1.Some? ==> SpawnBomb(SpawnBomb(b).0).0 == SpawnBomb(b).0
  {
  }

  /** `recycle`: the bomb leaves the flying list if it is there, and is always appended to the idle list. */
  function RecycleBomb(b: Bombs, bomb: nat): (r: Bombs)
    ensures r.bombs == Erase(b.bombs, bomb) && r.recycled == b.recycled + [bomb]
    ensures bomb in b.bombs && BombsConserved(b) ==> BombsConserved(r)
    ensures bomb !in b.bombs ==> multiset(r.bombs) + multiset(r.recycled) == multiset(b.bombs) + multiset(b.recycled) + multiset{bomb}
  {
    b.(bombs := Erase(b.bombs, bomb), recycled := b.recycled + [bomb])
  }

  /** Recycling the bomb just thrown puts the lists back as they were. */
  lemma RecycleUndoesSpawn(b: Bombs)
    requires SpawnBomb(b).1.Some?
    ensures var r := SpawnBomb(b);
      RecycleBomb(r.0, r.1.value).recycled == b.recycled
      && multiset(RecycleBomb(r.0, r.1.value).bombs) == multiset(b.bombs)
  {
  }

  /** Recycling a bomb that is not in flight leaves it idle twice, which breaks the one-copy rule. */
  lemma RecycleIdleBombDuplicates(b: Bombs, bomb: nat)
    requires BombsConserved(b) && bomb in b.recycled && bomb !in b.bombs
    ensures !BombsConserved(RecycleBomb(b, bomb))
  {
    var r := RecycleBomb(b, bomb);
    HandlesOnceBombs(bomb);
    assert multiset(r.recycled)[bomb] >= 2;
  }

  lemma HandlesOnceBombs(p: nat)
    ensures multiset(Handles(BombCount))[p] <= 1
  {
    HandlesOnce(BombCount, p);
  }
}
