/**
 * The classes of lib/xpedite/intercept/TlScopedDatum.H: a slot of the pool
 * (TlScopedDatum), the move-only handle to one (TlScopedDatumPtr) and the
 * fixed array of slots with its get (TlScopedData). Every state change is
 * proved against the value-level model in slot_spec.dfy. The thread id is
 * a parameter and the compare-and-set is sequential.
 */
module ScopedData {
  import opened Wrappers
  import opened SlotSpec

  /** One slot: its owning thread id (0 means free), the payload and the nested-use count. */
  class Slot<T(0)> {
    var tid: int
    var data: T
    var useCount: int

    /** A fresh slot is free and unused; the payload is default-constructed. */
    constructor ()
      ensures tid == 0 && useCount == 0
    {
      tid := 0;
      useCount := 0;
    }

    /** The slot's (owner, useCount) pair. */
    ghost function State(): SlotState
      reads this
    {
      SlotState(tid, useCount)
    }

    /** isUsed: whether thread `t` owns this slot. */
    method IsUsed(t: int) returns (used: bool)
      ensures used <==> tid == t
    {
      used := tid == t;
    }

    /** tryUse: compare-and-set of the owner from 0 to `t`. */
    method TryUse(t: int) returns (ok: bool)
      modifies this`tid
      ensures ok <==> old(tid) == 0
      ensures tid == if ok then t else old(tid)
    {
      ok := tid == 0;
      if ok {
        tid := t;
      }
    }

    /** acquire: one more nested use; owner and payload are untouched. */
    method Acquire()
      requires useCount >= 0
      modifies this`useCount
      ensures useCount == old(useCount) + 1
      ensures State() == Acquired(old(State()))
    {
      useCount := useCount + 1;
    }

    /** release: one use fewer, and the slot is freed when the last use ends. */
    method Release()
      requires useCount > 0
      modifies this`useCount, this`tid
      ensures useCount == old(useCount) - 1
      ensures tid == if useCount == 0 then 0 else old(tid)
      ensures State() == Released(old(State()))
    {
      useCount := useCount - 1;
      if useCount == 0 {
        tid := 0;
      }
    }
  }

  /**
   * A move-only handle: bound to one slot, or null when the pool was
   * exhausted. Its pool and the slot's index there are ghost: the source
   * has one static pool per payload type and capacity, so the pointer alone
   * determines both.
   */
  class Handle<T(0)> {
    var datum: Slot?<T>
    ghost const pool: Pool<T>
    ghost const index: nat
    /** The destructor has not run yet. */
    ghost var live: bool

    /** A bound handle points at slot `index` of its pool. */
    ghost predicate Valid()
      reads this, pool.slots
    {
      datum != null ==> index < pool.slots.Length && pool.slots[index] == datum
    }

    /**
     * The constructor get uses for a slot it found: it acquires the slot, and
     * the pool counts one more live handle on it.
     */
    constructor Bind(d: Slot<T>, ghost p: Pool<T>, ghost i: nat)
      requires p.Distinct() && i < p.slots.Length && p.slots[i] == d
      requires d.useCount >= 0
      modifies d`useCount, p`held
      ensures datum == d && pool == p && index == i && live && Valid()
      ensures d.useCount == old(d.useCount) + 1 && d.data == old(d.data)
      ensures p.States() == old(p.States())[i := Acquired(old(p.States())[i])]
      ensures p.held == old(p.held) + multiset{i}
    {
      datum := d;
      pool := p;
      index := i;
      live := true;
      new;
      d.Acquire();
      p.ChangedOnlyAt(i);
      p.held := p.held + multiset{i};
    }

    /** The handle get returns when the pool is exhausted: no slot is touched. */
    constructor Null(ghost p: Pool<T>)
      ensures datum == null && pool == p && live && Valid()
    {
      datum := null;
      pool := p;
      index := 0;
      live := true;
    }

    /** The move constructor: takes over `other`'s slot and leaves `other` null; no count changes. */
    constructor Move(other: Handle<T>)
      requires other.live && other.Valid()
      modifies other`datum
      ensures datum == old(other.datum) && other.datum == null
      ensures pool == other.pool && index == other.index && live
      ensures Valid() && other.Valid()
    {
      datum := other.datum;
      pool := other.pool;
      index := other.index;
      live := true;
      new;
      other.datum := null;
    }

    /**
     * The destructor: releases a bound slot exactly once, and the pool stops
     * counting this handle; a null handle does nothing. The positive count
     * that release asserts follows from the pool's handle count.
     */
    method Destroy()
      requires live && Valid()
      requires datum != null ==> pool.Valid() && index in pool.held
      modifies this`live, pool`held, (if datum == null then {} else {datum})`useCount, (if datum == null then {} else {datum})`tid
      ensures !live
      ensures datum != null ==> && pool.Valid()
                                && pool.States() == ReleaseAt(old(pool.States()), index)
                                && pool.held == old(pool.held) - multiset{index}
                                && datum.data == old(datum.data)
      ensures datum == null ==> pool.held == old(pool.held)
    {
      if datum != null {
        ghost var before := pool.States();
        ReleaseKeepsCounted(before, pool.held, index);
        ReleasePreservesInv(before, index);
        datum.Release();
        pool.ChangedOnlyAt(index);
        assert pool.States() == ReleaseAt(before, index);
        pool.held := pool.held - multiset{index};
      }
      live := false;
    }

    /** useCount: the bound slot's nested-use count, 0 for a null handle. */
    function UseCount(): (n: int)
      reads this, datum
      ensures datum == null ==> n == 0
      ensures datum != null ==> n == datum.useCount
    {
      if datum == null then 0 else datum.useCount
    }

    /** operator bool: whether the handle is bound to a slot. */
    predicate IsBound()
      reads this
      ensures IsBound() <==> datum != null
    {
      datum != null
    }
  }

  /** The pool: a fixed array of slots, each a distinct object. */
  class Pool<T(0)> {
    const slots: array<Slot<T>>
    /** The slot objects of the array. */
    ghost const Repr: set<Slot<T>>
    /** The slot index of every live bound handle, once per handle. */
    ghost var held: multiset<nat>

    /** No slot object appears twice in the array, and `Repr` holds them all. */
    ghost predicate Distinct()
      reads slots
    {
      && (forall i, j :: 0 <= i < j < slots.Length ==> slots[i] != slots[j])
      && (forall i :: 0 <= i < slots.Length ==> slots[i] in Repr)
    }

    /** The (owner, useCount) pairs of the slots, in array order. */
    ghost function States(): (s: seq<SlotState>)
      requires Distinct()
      reads slots, Repr
      ensures |s| == slots.Length
      ensures forall i :: 0 <= i < slots.Length ==> s[i] == slots[i].State()
    {
      seq(slots.Length, i requires 0 <= i < slots.Length && slots[i] in Repr reads slots, Repr => slots[i].State())
    }

    /** When only slot `i` has changed, the pool's states change only at `i`. */
    twostate lemma ChangedOnlyAt(i: nat)
      requires old(Distinct()) && Distinct() && i < slots.Length
      requires forall j :: 0 <= j < slots.Length && j != i ==> slots[j].State() == old(slots[j].State())
      ensures States() == old(States())[i := slots[i].State()]
    {
    }

    /** The pool invariant holds and each slot's count is the number of live handles on it. */
    ghost predicate Valid()
      reads this, slots, Repr
    {
      Distinct() && Inv(States()) && Counted(States(), held)
    }

    /** The static array of `maxSize` default-constructed slots: all free, no handle live. */
    constructor (maxSize: nat)
      ensures Valid() && fresh(slots) && slots.Length == maxSize
      ensures fresh(Repr) && Repr == set i | 0 <= i < maxSize :: slots[i]
      ensures forall i :: 0 <= i < maxSize ==> States()[i] == Free
      ensures held == multiset{}
    {
      var made: seq<Slot<T>> := [];
      while |made| < maxSize
        invariant |made| <= maxSize
        invariant forall i :: 0 <= i < |made| ==> fresh(made[i]) && made[i].State() == Free
        invariant forall i, j :: 0 <= i < j < |made| ==> made[i] != made[j]
      {
        var slot := new Slot<T>();
        made := made + [slot];
      }
      var a := new Slot<T>[maxSize](i requires 0 <= i < maxSize => made[i]);
      assert a[..] == made;
      slots := a;
      Repr := set i | 0 <= i < a.Length :: a[i];
      held := multiset{};
      new;
      assert forall i :: 0 <= i < maxSize ==> slots[i] in Repr;
      assert Distinct();
      assert forall i :: 0 <= i < maxSize ==> States()[i] == Free;
      assert Inv(States()) && Counted(States(), held);
    }

    /** The first loop of get: the first slot already owned by `tid`, if any. */
    method FindOwned(tid: int) returns (k: Option<nat>)
      requires Distinct()
      ensures k == FirstOwnedBy(States(), tid)
    {
      var i := 0;
      while i < slots.Length
        invariant 0 <= i <= slots.Length
        invariant forall j :: 0 <= j < i ==> slots[j].tid != tid
      {
        var used := slots[i].IsUsed(tid);
        if used {
          assert IsFirstOwnedBy(States(), tid, i);
          return Some(i);
        }
        i := i + 1;
      }
      return None;
    }

    /**
     * The second loop of get: the first slot whose compare-and-set from 0 to
     * `tid` succeeds, now owned by `tid`; failed attempts change nothing.
     */
    method ClaimFree(tid: int) returns (k: Option<nat>)
      requires Distinct() && tid != 0 && !OwnsSome(States(), tid)
      modifies Repr
      ensures k == FirstOwnedBy(old(States()), 0)
      ensures States() == Scan(old(States()), tid).states
      ensures forall j :: 0 <= j < slots.Length ==> slots[j].data == old(slots[j].data)
    {
      ghost var s := States();
      var i := 0;
      while i < slots.Length
        invariant 0 <= i <= slots.Length
        invariant forall j :: 0 <= j < i ==> s[j].owner != 0
        invariant States() == s
        invariant forall j :: 0 <= j < slots.Length ==> slots[j].data == old(slots[j].data)
      {
        var claimed := slots[i].TryUse(tid);
        if claimed {
          assert IsFirstOwnedBy(s, 0, i);
          assert States() == s[i := s[i].(owner := tid)];
          return Some(i);
        }
        assert States() == s;
        i := i + 1;
      }
      return None;
    }

    /** Both loops of get: the slot `tid` owns, else the first free one it claims. */
    method ScanSlots(tid: int) returns (k: Option<nat>)
      requires Distinct() && tid != 0
      modifies Repr
      ensures k == Scan(old(States()), tid).slot
      ensures States() == Scan(old(States()), tid).states
      ensures forall i :: 0 <= i < slots.Length ==> slots[i].data == old(slots[i].data)
    {
      k := FindOwned(tid);
      if k.None? {
        k := ClaimFree(tid);
      }
    }

    /**
     * get: the slot `tid` already owns, else the first free slot it claims;
     * the new handle acquires it. On exhaustion: a null handle, no change.
     */
    method Get(tid: int) returns (h: Handle<T>)
      requires Valid() && tid != 0
      modifies this, Repr
      ensures Valid() && fresh(h) && h.live && h.pool == this && h.Valid()
      ensures States() == SlotSpec.Get(old(States()), tid).states
      ensures h.datum == match SlotSpec.Get(old(States()), tid).slot
                         case Some(i) => slots[i]
                         case None => null
      ensures SlotSpec.Get(old(States()), tid).slot.Some? ==> h.index == SlotSpec.Get(old(States()), tid).slot.value
      ensures held == match SlotSpec.Get(old(States()), tid).slot
                      case Some(i) => old(held) + multiset{i}
                      case None => old(held)
      ensures forall i :: 0 <= i < slots.Length ==> slots[i].data == old(slots[i].data)
    {
      ghost var s := States();
      GetPreservesInv(s, tid);
      GetKeepsCounted(s, held, tid);
      var k := ScanSlots(tid);
      if k.Some? {
        ghost var scanned := States();
        h := new Handle.Bind(slots[k.value], this, k.value);
        assert States() == scanned[k.value := Acquired(scanned[k.value])];
      } else {
        h := new Handle.Null(this);
      }
    }
  }

  /**
   * A client of a one-slot pool: get binds the slot with count 1, and
   * destroying the handle frees the slot again.
   */
  method OneSlotRun(tid: int) returns (bound: bool, count: int, freed: bool)
    requires tid != 0
    ensures bound && count == 1 && freed
  {
    var p := new Pool<int>(1);
    assert IsFirstOwnedBy(p.States(), 0, 0);
    var h := p.Get(tid);
    ghost var held := p.States();
    assert held[0] == SlotState(tid, 1);
    bound := h.IsBound();
    count := h.UseCount();
    h.Destroy();
    assert p.States()[0] == Released(held[0]);
    freed := p.slots[0].tid == 0 && p.slots[0].useCount == 0;
  }

  /**
   * A move hands the slot over: the moved-from handle is null and its
   * destructor releases nothing, so the slot is released exactly once, by the
   * handle it was moved into.
   */
  method MoveRun(tid: int) returns (count: int, afterSource: int, freed: bool)
    requires tid != 0
    ensures count == 1 && afterSource == 1 && freed
  {
    var p := new Pool<int>(1);
    assert IsFirstOwnedBy(p.States(), 0, 0);
    var h1 := p.Get(tid);
    ghost var held := p.States();
    assert held[0] == SlotState(tid, 1);
    var h2 := new Handle.Move(h1);
    assert h2.datum == p.slots[0] && h2.pool == p && h2.index == 0;
    count := h2.UseCount();
    h1.Destroy();
    assert p.Valid() && p.States() == held && 0 in p.held;
    afterSource := p.slots[0].useCount;
    h2.Destroy();
    assert p.States()[0] == Released(held[0]);
    freed := p.slots[0].tid == 0 && p.slots[0].useCount == 0;
  }

  /** Pools are disjoint: a get on one pool leaves another pool's slots as they were. */
  method TwoPoolsRun(tid: int) returns (untouched: bool)
    requires tid != 0
    ensures untouched
  {
    var other := new Pool<int>(1);
    var p := new Pool<int>(1);
    var h := p.Get(tid);
    untouched := other.slots[0].tid == 0 && other.slots[0].useCount == 0;
  }
}
