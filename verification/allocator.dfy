/**
 * NcObjectAllocator: a fixed block of `capacity` nodes, handed out first from
 * an intrusive free list (each node's `next` link) and then in index order.
 * Nodes are named by their index; a null link is None.
 *
 * `Allocator` is the code as written. Its `free` decides that a node is not
 * yet on the free list by testing `next == nullptr`, which is wrong twice:
 * the tail of the free list also has a null link (so a second `free` of it
 * links the node to itself), and `allocate` never clears the link of a node
 * it pops (so a node that left the free list with a non-null link can never
 * be freed again). `SafeAllocator` is the evidently intended allocator,
 * which tracks membership of the free list explicitly.
 */
module ObjectAllocator {
  import opened Wrappers

  // ---------------------------------------------------------- as written

  datatype Allocator = Allocator(capacity: nat, handedOut: nat, freeList: Option<nat>, next: seq<Option<nat>>) {
    predicate Valid() {
      |next| == capacity && handedOut <= capacity
      && (freeList.Some? ==> freeList.value < capacity)
      && forall i :: 0 <= i < capacity && next[i].Some? ==> next[i].value < capacity
    }
  }

  /**
   * `init`: an empty free list and nothing handed out. The node block comes
   * from `malloc`; its links are read here as null.
   */
  function Init(capacity: nat): (a: Allocator)
    ensures a.Valid() && a.capacity == capacity && a.handedOut == 0 && a.freeList == None
    ensures forall i :: 0 <= i < capacity ==> a.next[i] == None
  {
    Allocator(capacity, 0, None, seq(capacity, _ => None))
  }

  /** `allocate`: the free-list head if there is one, else the next unused node, else None (out of memory). */
  function Allocate(a: Allocator): (r: (Allocator, Option<nat>))
    requires a.Valid()
    ensures r.0.Valid() && r.0.next == a.next && r.0.capacity == a.capacity
    ensures a.freeList.Some? ==> r.1 == a.freeList && r.0.freeList == a.next[a.freeList.value] && r.0.handedOut == a.handedOut
    ensures a.freeList.None? && a.handedOut < a.capacity ==> r.1 == Some(a.handedOut) && r.0.handedOut == a.handedOut + 1
    ensures a.freeList.None? && a.handedOut == a.capacity ==> r == (a, None)
  {
    match a.freeList
    case Some(node) => (a.(freeList := a.next[node]), Some(node))
    case None =>
      if a.handedOut + 1 <= a.capacity then (a.(handedOut := a.handedOut + 1), Some(a.handedOut))
      else (a, None)
  }

  /** `free`: pushes the node only when its link is null; otherwise nothing happens. */
  function Free(a: Allocator, node: nat): (r: Allocator)
    requires a.Valid() && node < a.capacity
    ensures r.Valid() && r.capacity == a.capacity && r.handedOut == a.handedOut
    ensures a.next[node].None? ==> r.freeList == Some(node) && r.next == a.next[node := a.freeList]
    ensures a.next[node].Some? ==> r == a
  {
    if a.next[node] == None then a.(next := a.next[node := a.freeList], freeList := Some(node)) else a
  }

  /** `reset`: forgets the free list and the handed-out count; the links stay as they are. */
  function Reset(a: Allocator): (r: Allocator)
    requires a.Valid()
    ensures r.Valid() && r.freeList == None && r.handedOut == 0 && r.next == a.next && r.capacity == a.capacity
  {
    a.(freeList := None, handedOut := 0)
  }

  /** `destroy`: also gives the block back, so nothing can be allocated any more. */
  function Destroy(a: Allocator): (r: Allocator)
    ensures r.Valid() && r.capacity == 0 && r.handedOut == 0 && r.freeList == None
    ensures Allocate(r).1 == None
  {
    Allocator(0, 0, None, [])
  }

  /**
   * Freeing the tail of the free list twice links it to itself, after which
   * every allocation returns the same node.
   */
  lemma DoubleFreeMakesCycle()
    ensures var a1 := Allocate(Init(1));
      var a3 := Free(Free(a1.0, 0), 0);
      var b1 := Allocate(a3);
      var b2 := Allocate(b1.0);
      a1.1 == Some(0) && a3.next[0] == Some(0) && b1.1 == Some(0) && b2.1 == Some(0)
  {
  }

  /**
   * A node that leaves the free list keeps its stale link, so freeing it
   * again is ignored and the node is lost for good.
   */
  lemma StaleLinkLeaksNode()
    ensures var a := Allocate(Allocate(Init(2)).0).0;
      var f := Free(Free(a, 0), 1);
      var g := Allocate(f);
      g.1 == Some(1) && Free(g.0, 1) == g.0
      && Allocate(g.0).1 == Some(0) && Allocate(Allocate(g.0).0).1 == None
  {
  }

  // ------------------------------------------------------------ corrected

  /** The intended allocator: the free list as a stack (newest last) holding each free node once. */
  datatype SafeAllocator = SafeAllocator(capacity: nat, handedOut: nat, freeStack: seq<nat>) {
    predicate Valid() {
      handedOut <= capacity
      && (forall i :: 0 <= i < |freeStack| ==> freeStack[i] < handedOut)
      && (forall i, j :: 0 <= i < j < |freeStack| ==> freeStack[i] != freeStack[j])
    }
  }

  /** A node is live when it has been handed out and not given back. */
  predicate Live(a: SafeAllocator, node: nat)
  {
    node < a.handedOut && node !in a.freeStack
  }

  function SafeInit(capacity: nat): (a: SafeAllocator)
    ensures a.Valid() && a.capacity == capacity && forall n :: !Live(a, n)
  {
    SafeAllocator(capacity, 0, [])
  }

  /** Allocation as in the source, but only ever from nodes that are not live. */
  function SafeAllocate(a: SafeAllocator): (r: (SafeAllocator, Option<nat>))
    requires a.Valid()
    ensures r.0.Valid() && r.0.capacity == a.capacity
    ensures r.1.None? <==> a.freeStack == [] && a.handedOut == a.capacity
    ensures r.1.None? ==> r.0 == a
    ensures r.1.Some? ==> r.1.value < a.capacity && !Live(a, r.1.value) && Live(r.0, r.1.value)
    ensures r.1.Some? ==> forall n :: n != r.1.value ==> (Live(r.0, n) <==> Live(a, n))
    ensures a.freeStack != [] ==> r.1 == Some(a.freeStack[|a.freeStack| - 1])
  {
    if a.freeStack != [] then
      var n := |a.freeStack|;
      var node := a.freeStack[n - 1];
      var r := a.(freeStack := a.freeStack[..n - 1]);
      assert forall m :: m in a.freeStack <==> m in r.freeStack || m == node;
      (r, Some(node))
    else if a.handedOut + 1 <= a.capacity then
      (a.(handedOut := a.handedOut + 1), Some(a.handedOut))
    else (a, None)
  }

  /** Freeing pushes a live node; freeing a node twice, or one never handed out, changes nothing. */
  function SafeFree(a: SafeAllocator, node: nat): (r: SafeAllocator)
    requires a.Valid()
    ensures r.Valid() && r.capacity == a.capacity && r.handedOut == a.handedOut
    ensures Live(a, node) ==> !Live(r, node) && r.freeStack == a.freeStack + [node]
    ensures !Live(a, node) ==> r == a
    ensures forall n :: n != node ==> (Live(r, n) <==> Live(a, n))
  {
    if Live(a, node) then a.(freeStack := a.freeStack + [node]) else a
  }

  /** The intended double-free behaviour: a second free is ignored, so no node is handed out twice. */
  lemma SafeFreeIgnoresDoubleFree(a: SafeAllocator, node: nat)
    requires a.Valid() && Live(a, node)
    ensures SafeFree(SafeFree(a, node), node) == SafeFree(a, node)
    ensures var r := SafeAllocate(SafeFree(SafeFree(a, node), node));
      r.1 == Some(node) && SafeAllocate(r.0).1 != Some(node)
  {
  }

  /** Freed nodes come back newest first, as with the source's free list. */
  lemma SafeAllocateIsLifo(a: SafeAllocator, node: nat)
    requires a.Valid() && Live(a, node)
    ensures SafeAllocate(SafeFree(a, node)) == (a, Some(node))
  {
    var f := SafeFree(a, node);
    assert f.freeStack[..|f.freeStack| - 1] == a.freeStack;
  }

  /** The intended stale-link behaviour: a node allocated from the free list can be freed and reused again. */
  lemma SafeReuseAfterPop(a: SafeAllocator)
    requires a.Valid() && a.freeStack != []
    ensures var r := SafeAllocate(a);
      r.1.Some? && SafeAllocate(SafeFree(r.0, r.1.value)).1 == r.1
  {
    var r := SafeAllocate(a);
    SafeAllocateIsLifo(r.0, r.1.value);
  }
}
