/**
 The object slab of the web client's glue: a growing array whose free slots thread the list of free
 slots through the array itself.

 Slots are untagged, as in the source: a slot holds an object or, while it is free, the number of the
 next free slot. Which one it is only the ghost state knows.
 */
module Slab {

  datatype Js = Undefined | Null | Bool(b: bool) | Num(n: nat) | Obj(identity: nat)

  const RESERVED: nat := 1028

  function ReservedObjects(): seq<Js> { seq(1024, _ => Undefined) + [Undefined, Null, Bool(true), Bool(false)] }

  /** What the glue keeps in a reserved slot: 1025 times undefined, and then null, true and false. */
  predicate IsReserved(idx: nat, obj: Js) {
    if idx < 1025 then obj == Undefined
    else if idx == 1025 then obj == Null
    else idx < 1028 && obj == Bool(idx == 1026)
  }

  lemma ReservedSlot(idx: nat)
    requires idx < RESERVED
    ensures IsReserved(idx, ReservedObjects()[idx])
  {
    if idx < 1024 { assert ReservedObjects()[idx] == seq(1024, _ => Undefined)[idx]; }
  }

  /** Following `next` through the array visits exactly the slots of `free` and ends at the array's end. */
  ghost predicate Threads(heap: seq<Js>, next: nat, free: seq<nat>)
    decreases |free|
  {
    if free == [] then next == |heap|
    else next == free[0] && next < |heap| && heap[next].Num? && Threads(heap, heap[next].n, free[1..])
  }

  /**
   The slab is in order: the array consists of the reserved objects, the live slots and the free slots,
   which are threaded from `next` on, and has as many unreserved slots as were ever live at once.
   */
  ghost predicate InOrder(heap: seq<Js>, next: nat, free: seq<nat>, live: map<nat, Js>, peak: nat) {
    && |heap| == RESERVED + peak && heap[..RESERVED] == ReservedObjects()
    && Threads(heap, next, free)
    && (forall i, j | 0 <= i < j < |free| :: free[i] != free[j])
    && (forall f | f in free :: RESERVED <= f < |heap| && f !in live)
    && (forall h | h in live :: RESERVED <= h < |heap| && heap[h] == live[h])
    && (forall h | RESERVED <= h < |heap| :: h in live || h in free)
    && |live| + |free| == peak
  }

  class Heap {
    var heap: seq<Js>
    var heapNext: nat
    /** The live handles with their objects. */
    ghost var live: map<nat, Js>
    /** The free slots in the order in which they will be handed out. */
    ghost var free: seq<nat>
    /** The most handles that were ever live at once. */
    ghost var peak: nat

    ghost predicate Valid()
      reads this
    {
      InOrder(heap, heapNext, free, live, peak)
    }

    constructor ()
      ensures Valid() && live == map[] && free == [] && peak == 0 && |heap| == 1028
    {
      heap := ReservedObjects();
      heapNext := RESERVED;
      live, free, peak := map[], [], 0;
    }

    /** Store an object in the first free slot, growing the array only when there is none. */
    method AddHeapObject(obj: Js) returns (idx: nat)
      requires Valid()
      modifies this
      ensures Valid()
      ensures idx !in old(live) && live == old(live)[idx := obj] && idx >= 1028
      ensures free == if old(free) == [] then [] else old(free)[1..]
      ensures old(free) != [] ==> idx == old(free)[0] && |heap| == |old(heap)|
      ensures old(free) == [] ==> idx == |old(heap)| && |heap| == |old(heap)| + 1
      ensures peak == if |live| > old(peak) then |live| else old(peak)
    {
      if heapNext == |heap| {
        GrownHeap(heap, free, live, peak);
        heap := heap + [Num(|heap| + 1)];
        free, peak := [heapNext], peak + 1;
      }
      idx := heapNext;
      TakenSlot(heap, heapNext, free, live, peak, obj);
      heapNext := heap[idx].n;
      heap := heap[idx := obj];
      free, live := free[1..], live[idx := obj];
    }

    /** Free a live handle. Handles of reserved slots are left alone. */
    method DropObject(idx: nat)
      requires Valid() && (idx in live || idx < 1028)
      modifies this
      ensures Valid()
      ensures live == old(live) - {idx} && peak == old(peak)
      ensures free == if idx < 1028 then old(free) else [idx] + old(free)
    {
      if idx < RESERVED {
        assert live - {idx} == live;
        return;
      }
      FreedSlot(heap, heapNext, free, live, peak, idx);
      heap := heap[idx := Num(heapNext)];
      heapNext := idx;
      free, live := [idx] + free, live - {idx};
    }

    /** Read a live or reserved handle. */
    method GetObject(idx: nat) returns (obj: Js)
      requires Valid() && (idx in live || idx < 1028)
      ensures if idx < 1028 then IsReserved(idx, obj) else obj == live[idx]
    {
      if idx < RESERVED {
        assert heap[idx] == heap[..RESERVED][idx];
        ReservedSlot(idx);
      }
      obj := heap[idx];
    }

    method TakeObject(idx: nat) returns (obj: Js)
      requires Valid() && (idx in live || idx < 1028)
      modifies this
      ensures Valid()
      ensures if idx < 1028 then IsReserved(idx, obj) else obj == old(live)[idx]
      ensures live == old(live) - {idx} && peak == old(peak)
      ensures free == if idx < 1028 then old(free) else [idx] + old(free)
    {
      obj := GetObject(idx);
      DropObject(idx);
    }
  }

  /** With no free slot the array grows by one, which is free and ends the list. */
  lemma GrownHeap(heap: seq<Js>, free: seq<nat>, live: map<nat, Js>, peak: nat)
    requires InOrder(heap, |heap|, free, live, peak)
    ensures free == [] && InOrder(heap + [Num(|heap| + 1)], |heap|, [|heap|], live, peak + 1)
  {
    var grown := heap + [Num(|heap| + 1)];
    assert grown[..RESERVED] == heap[..RESERVED];
    assert free == [] && [|heap|][1..] == [] && Threads(grown, |grown|, []);
  }

  lemma TakenSlot(heap: seq<Js>, next: nat, free: seq<nat>, live: map<nat, Js>, peak: nat, obj: Js)
    requires InOrder(heap, next, free, live, peak) && next < |heap|
    ensures free != [] && next == free[0] && next !in live && next >= RESERVED && heap[next].Num?
    ensures InOrder(heap[next := obj], heap[next].n, free[1..], live[next := obj], peak)
  {
    var rest, after := free[1..], heap[next := obj];
    assert free[0] in free && forall f | f in rest :: f in free && f != next;
    ThreadsElsewhere(heap, after, heap[next].n, rest);
    LiveGrows(live, next, obj);
    assert after[..RESERVED] == heap[..RESERVED];
    forall h | RESERVED <= h < |heap| && h != next ensures h in live || h in rest {
      assert h in free ==> h in [free[0]] + rest;
    }
  }

  lemma FreedSlot(heap: seq<Js>, next: nat, free: seq<nat>, live: map<nat, Js>, peak: nat, idx: nat)
    requires InOrder(heap, next, free, live, peak) && idx in live
    ensures InOrder(heap[idx := Num(next)], idx, [idx] + free, live - {idx}, peak)
  {
    var after := heap[idx := Num(next)];
    ThreadsElsewhere(heap, after, next, free);
    assert ([idx] + free)[1..] == free;
    LiveShrinks(live, idx);
    assert after[..RESERVED] == heap[..RESERVED];
  }

  /** Writing a slot outside the free list leaves the list alone, and so does growing a list that is not at its end. */
  lemma {:induction false} ThreadsElsewhere(a: seq<Js>, b: seq<Js>, next: nat, free: seq<nat>)
    requires Threads(a, next, free) && |a| == |b|
    requires forall f | f in free && f < |a| :: a[f] == b[f]
    ensures Threads(b, next, free)
    decreases |free|
  {
    if free != [] {
      assert free[0] in free;
      forall f | f in free[1..] && f < |a| ensures a[f] == b[f] { assert f in free; }
      ThreadsElsewhere(a, b, a[next].n, free[1..]);
    }
  }

  lemma LiveGrows(live: map<nat, Js>, idx: nat, obj: Js)
    requires idx !in live
    ensures |live[idx := obj]| == |live| + 1
  {
    assert live[idx := obj].Keys == live.Keys + {idx};
    assert |live[idx := obj]| == |live[idx := obj].Keys| && |live| == |live.Keys|;
  }

  lemma LiveShrinks(live: map<nat, Js>, idx: nat)
    requires idx in live
    ensures |live - {idx}| == |live| - 1
  {
    assert (live - {idx}).Keys == live.Keys - {idx};
    assert |live - {idx}| == |(live - {idx}).Keys| && |live| == |live.Keys|;
  }

  // ----- The free list read off the array

  /** The array and its head determine the free list. */
  lemma {:induction false} FreeListIsDetermined(heap: seq<Js>, next: nat, f: seq<nat>, g: seq<nat>)
    requires Threads(heap, next, f) && Threads(heap, next, g)
    ensures f == g
    decreases |f|
  {
    if f != [] && g != [] {
      FreeListIsDetermined(heap, heap[next].n, f[1..], g[1..]);
      assert f == [next] + f[1..] && g == [next] + g[1..];
    }
  }

  /** A thread that reaches the end never visits a slot twice: the list is acyclic. */
  lemma {:induction false} FreeListIsAcyclic(heap: seq<Js>, next: nat, free: seq<nat>)
    requires Threads(heap, next, free)
    ensures forall i, j | 0 <= i < j < |free| :: free[i] != free[j]
  {
    forall i, j | 0 <= i < j < |free| ensures free[i] != free[j] {
      ThreadsSuffix(heap, next, free, i);
      ThreadsSuffix(heap, next, free, j);
      if free[i] == free[j] {
        FreeListIsDetermined(heap, free[i], free[i..], free[j..]);
      }
    }
  }

  lemma {:induction false} ThreadsSuffix(heap: seq<Js>, next: nat, free: seq<nat>, i: nat)
    requires Threads(heap, next, free) && i < |free|
    ensures Threads(heap, free[i], free[i..])
    decreases |free|
  {
    if i > 0 {
      ThreadsSuffix(heap, heap[next].n, free[1..], i - 1);
      assert free[1..][i - 1..] == free[i..];
    }
  }

  ghost predicate HasFreeList(heap: seq<Js>, next: nat) {
    exists f :: Threads(heap, next, f)
  }

  /**
   Dropping a slot keeps the free list intact exactly when the slot is not already free. A second
   drop of a free slot closes the list into a cycle that never reaches the end of the array.
   */
  lemma DropKeepsTheListIff(heap: seq<Js>, next: nat, free: seq<nat>, idx: nat)
    requires Threads(heap, next, free) && idx < |heap|
    ensures HasFreeList(heap[idx := Num(next)], idx) <==> idx !in free
  {
    var dropped := heap[idx := Num(next)];
    if idx !in free {
      ThreadsElsewhere(heap, dropped, next, free);
      assert ([idx] + free)[1..] == free;
      assert Threads(dropped, idx, [idx] + free);
    } else if HasFreeList(dropped, idx) {
      var f :| Threads(dropped, idx, f);
      var k :| 0 <= k < |free| && free[k] == idx;
      FreeListIsAcyclic(heap, next, free);
      FreeListIsAcyclic(dropped, idx, f);
      var i := CycleReturns(heap, dropped, next, free, k, f[1..]);
    }
  }

  /** Walking the damaged array from the old head leads back to slot `free[k]`. */
  lemma {:induction false} CycleReturns(heap: seq<Js>, dropped: seq<Js>, next: nat, free: seq<nat>, k: nat, f: seq<nat>)
    returns (i: nat)
    requires Threads(heap, next, free) && k < |free| && |dropped| == |heap|
    requires forall j | 0 <= j < k :: free[j] != free[k]
    requires forall s | 0 <= s < |heap| && s != free[k] :: dropped[s] == heap[s]
    requires Threads(dropped, next, f)
    ensures i < |f| && f[i] == free[k]
    decreases |free|
  {
    if k == 0 {
      i := 0;
    } else {
      forall j | 0 <= j < k - 1 ensures free[1..][j] != free[1..][k - 1] { assert free[j + 1] != free[k]; }
      var rest := CycleReturns(heap, dropped, heap[next].n, free[1..], k - 1, f[1..]);
      i := rest + 1;
    }
  }
}
