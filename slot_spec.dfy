/**
 * The thread-slot pool of lib/xpedite/intercept/TlScopedDatum.H seen as a
 * value: a sequence of (owner, useCount) pairs, one per slot of the static
 * array, and what TlScopedData::get and the release of a handle do to it.
 * The classes in scoped_data.dfy are proved against these functions.
 */
module SlotSpec {
  import opened Wrappers

  /** One slot: the owning thread id (0 means free) and the nested-use count. */
  datatype SlotState = SlotState(owner: int, useCount: int)

  /** The state every slot starts in, and returns to when its last use ends. */
  const Free := SlotState(0, 0)

  /** Some slot of `s` is owned by `owner` (owner 0: some slot is free). */
  predicate OwnsSome(s: seq<SlotState>, owner: int)
  {
    exists j :: 0 <= j < |s| && s[j].owner == owner
  }

  /** `i` is the first slot of `s` whose owner is `owner`. */
  predicate IsFirstOwnedBy(s: seq<SlotState>, owner: int, i: nat)
  {
    i < |s| && s[i].owner == owner && forall j :: 0 <= j < i ==> s[j].owner != owner
  }

  /**
   * A front-to-back scan for a slot whose owner is `owner`: the first loop of
   * get looks for the caller's id, the second one for the free tag 0.
   */
  function FirstOwnedBy(s: seq<SlotState>, owner: int): (r: Option<nat>)
    ensures r.Some? <==> OwnsSome(s, owner)
    ensures r.Some? ==> IsFirstOwnedBy(s, owner, r.value)
  {
    if |s| == 0 then None
    else if s[0].owner == owner then Some(0)
    else match FirstOwnedBy(s[1..], owner)
      case None => None
      case Some(k) => Some(k + 1)
  }

  /**
   * acquire: one more nested use of the slot; the owner is kept. A release
   * undoes it, except that the last release frees the slot.
   */
  function Acquired(s: SlotState): (r: SlotState)
    ensures r.owner == s.owner && r.useCount == s.useCount + 1
    ensures s.useCount > 0 ==> Released(r) == s
    ensures s.useCount == 0 ==> Released(r) == Free
  {
    s.(useCount := s.useCount + 1)
  }

  /** release: one use fewer; the slot is freed when the last use ends. */
  function Released(s: SlotState): (r: SlotState)
    requires s.useCount > 0
    ensures r.useCount == s.useCount - 1
    ensures r.owner == if r.useCount == 0 then 0 else s.owner
  {
    if s.useCount == 1 then Free else s.(useCount := s.useCount - 1)
  }

  /** A slot chosen by get (None when the pool is exhausted) and the pool state it leaves. */
  datatype Acquisition = Acquisition(states: seq<SlotState>, slot: Option<nat>)

  /**
   * The two scans of get, up to the point where the handle is constructed:
   * the slot chosen and the pool after the compare-and-set of the second scan.
   */
  function Scan(s: seq<SlotState>, tid: int): (r: Acquisition)
    requires tid != 0
    // re-entry: the first slot the caller already owns, untouched
    ensures OwnsSome(s, tid) ==> r.slot.Some? && IsFirstOwnedBy(s, tid, r.slot.value) && r.states == s
    // claim: otherwise the first free slot, now owned by the caller
    ensures !OwnsSome(s, tid) && OwnsSome(s, 0) ==>
              r.slot.Some? && IsFirstOwnedBy(s, 0, r.slot.value)
              && r.states == s[r.slot.value := s[r.slot.value].(owner := tid)]
    // exhaustion: no slot, nothing changed
    ensures !OwnsSome(s, tid) && !OwnsSome(s, 0) ==> r.slot.None? && r.states == s
  {
    match FirstOwnedBy(s, tid)
    case Some(i) => Acquisition(s, Some(i))
    case None =>
      match FirstOwnedBy(s, 0)
      case Some(i) => Acquisition(s[i := s[i].(owner := tid)], Some(i))
      case None => Acquisition(s, None)
  }

  /**
   * TlScopedData::get: scan, then acquire the chosen slot; on exhaustion a
   * null handle is returned and no acquire happens.
   */
  function Get(s: seq<SlotState>, tid: int): (r: Acquisition)
    requires tid != 0
    ensures r.slot == Scan(s, tid).slot
    ensures r.slot.None? <==> forall j :: 0 <= j < |s| ==> s[j].owner != tid && s[j].owner != 0
    ensures r.slot.None? ==> r.states == s
    ensures r.slot.Some? ==>
              && r.slot.value < |s|
              && (s[r.slot.value].owner == tid || s[r.slot.value].owner == 0)
              && r.states == s[r.slot.value := SlotState(tid, s[r.slot.value].useCount + 1)]
  {
    var scanned := Scan(s, tid);
    match scanned.slot
    case Some(i) => Acquisition(scanned.states[i := Acquired(scanned.states[i])], Some(i))
    case None => scanned
  }

  /** The destructor of a handle bound to slot `i`: only that slot changes. */
  function ReleaseAt(s: seq<SlotState>, i: nat): (r: seq<SlotState>)
    requires i < |s| && s[i].useCount > 0
    ensures |r| == |s| && forall j :: 0 <= j < |s| && j != i ==> r[j] == s[j]
    ensures r[i].useCount == s[i].useCount - 1
    ensures r[i] == Free <==> s[i].useCount == 1
    ensures s[i].useCount > 1 ==> r[i].owner == s[i].owner
  {
    s[i := Released(s[i])]
  }

  /** Per slot: the count is never negative, and the slot is free exactly when unused. */
  predicate Consistent(s: seq<SlotState>)
  {
    forall i :: 0 <= i < |s| ==> 0 <= s[i].useCount && (s[i].owner == 0 <==> s[i].useCount == 0)
  }

  /** No thread owns two slots. */
  predicate Exclusive(s: seq<SlotState>)
  {
    forall i, j :: 0 <= i < j < |s| && s[i].owner != 0 ==> s[i].owner != s[j].owner
  }

  /** The pool invariant that holds between operations. */
  predicate Inv(s: seq<SlotState>)
  {
    Consistent(s) && Exclusive(s)
  }

  lemma GetPreservesInv(s: seq<SlotState>, tid: int)
    requires Inv(s) && tid != 0
    ensures Inv(Get(s, tid).states)
  {
    var r := Get(s, tid);
    if r.slot.Some? {
      var i := r.slot.value;
      forall a, b | 0 <= a < b < |s| && r.states[a].owner != 0
        ensures r.states[a].owner != r.states[b].owner
      {
        if a == i || b == i {
          var other := if a == i then b else a;
          if !OwnsSome(s, tid) {
            assert s[other].owner != tid;
          }
        }
      }
    }
  }

  lemma ReleasePreservesInv(s: seq<SlotState>, i: nat)
    requires Inv(s) && i < |s| && s[i].useCount > 0
    ensures Inv(ReleaseAt(s, i))
  {
  }

  /**
   * The handle invariant: `held` holds the slot index of every live bound
   * handle, and each slot's count is the number of those handles on it.
   */
  predicate Counted(s: seq<SlotState>, held: multiset<nat>)
  {
    && (forall i: nat :: i < |s| ==> s[i].useCount == held[i])
    && (forall i: nat :: i in held ==> i < |s|)
  }

  /** A get that binds slot `i` adds one live handle on `i`; a null handle adds none. */
  lemma GetKeepsCounted(s: seq<SlotState>, held: multiset<nat>, tid: int)
    requires tid != 0 && Counted(s, held)
    ensures var r := Get(s, tid);
            Counted(r.states, if r.slot.Some? then held + multiset{r.slot.value} else held)
  {
    var r := Get(s, tid);
    if r.slot.Some? {
      var i := r.slot.value;
      var after := held + multiset{i};
      forall j: nat | j < |r.states|
        ensures r.states[j].useCount == after[j]
      {
        if j != i {
          assert r.states[j] == s[j];
        }
      }
    }
  }

  /**
   * Destroying a live handle on slot `i` finds a positive count there (the
   * assertion of release holds) and removes that handle.
   */
  lemma ReleaseKeepsCounted(s: seq<SlotState>, held: multiset<nat>, i: nat)
    requires Counted(s, held) && i in held
    ensures i < |s| && s[i].useCount > 0
    ensures Counted(ReleaseAt(s, i), held - multiset{i})
  {
    var after := held - multiset{i};
    var r := ReleaseAt(s, i);
    forall j: nat | j < |r|
      ensures r[j].useCount == after[j]
    {
      if j != i {
        assert r[j] == s[j];
      }
    }
  }

  /** What one thread does to the pool: a get, or destroying a handle it holds on `slot`. */
  datatype Event = GetBy(tid: int) | DestroyOn(slot: nat)

  /** The pool and the slot indices of the live bound handles. */
  datatype Trace = Trace(states: seq<SlotState>, held: multiset<nat>)

  /**
   * Any interleaving of gets and handle destructions, one event at a time.
   * Thread id 0 never calls get, and no thread destroys a handle on a slot no
   * live handle is bound to, so such events are skipped. Every release in the
   * trace meets the precondition of `ReleaseAt`, a positive count, and the
   * pool invariant and the handle count hold throughout.
   */
  function Replay(s: seq<SlotState>, held: multiset<nat>, events: seq<Event>): (r: Trace)
    requires Inv(s) && Counted(s, held)
    ensures |r.states| == |s| && Inv(r.states) && Counted(r.states, r.held)
    decreases |events|
  {
    if |events| == 0 then Trace(s, held)
    else match events[0]
      case GetBy(tid) =>
        if tid == 0 then Replay(s, held, events[1..])
        else
          var a := Get(s, tid);
          GetPreservesInv(s, tid);
          GetKeepsCounted(s, held, tid);
          Replay(a.states, if a.slot.Some? then held + multiset{a.slot.value} else held, events[1..])
      case DestroyOn(i) =>
        if i !in held then Replay(s, held, events[1..])
        else
          ReleaseKeepsCounted(s, held, i);
          ReleasePreservesInv(s, i);
          Replay(ReleaseAt(s, i), held - multiset{i}, events[1..])
  }

  /** A nested get by the same thread binds the same slot again. */
  lemma ReentryBindsSameSlot(s: seq<SlotState>, tid: int)
    requires Inv(s) && tid != 0 && Get(s, tid).slot.Some?
    ensures var r := Get(s, tid);
            var i := r.slot.value;
            Get(r.states, tid).slot == Some(i)
            && Get(r.states, tid).states == s[i := SlotState(tid, s[i].useCount + 2)]
  {
    var r := Get(s, tid);
    var i := r.slot.value;
    GetPreservesInv(s, tid);
    assert r.states[i].owner == tid;
  }

  /** `n` nested gets by one thread. */
  function GetTimes(s: seq<SlotState>, tid: int, n: nat): seq<SlotState>
    requires tid != 0
    decreases n
  {
    if n == 0 then s else GetTimes(Get(s, tid).states, tid, n - 1)
  }

  /** `n` handles bound to slot `i` destroyed one after another. */
  function ReleaseTimes(s: seq<SlotState>, i: nat, n: nat): seq<SlotState>
    requires i < |s| && s[i].useCount >= n
    decreases n
  {
    if n == 0 then s else ReleaseTimes(ReleaseAt(s, i), i, n - 1)
  }

  /** Once `tid` owns slot `i` (first of its slots), each further get only counts up on `i`. */
  lemma {:induction false} GetTimesOwned(s: seq<SlotState>, tid: int, i: nat, n: nat)
    requires tid != 0 && IsFirstOwnedBy(s, tid, i)
    ensures GetTimes(s, tid, n) == s[i := SlotState(tid, s[i].useCount + n)]
    decreases n
  {
    var held := SlotState(tid, s[i].useCount + n);
    if n == 0 {
      assert s[i := held] == s;
    } else {
      var s1 := Get(s, tid).states;
      assert OwnsSome(s, tid);
      assert Get(s, tid).slot == Some(i);
      assert s1 == s[i := SlotState(tid, s[i].useCount + 1)];
      assert IsFirstOwnedBy(s1, tid, i);
      GetTimesOwned(s1, tid, i, n - 1);
      assert s1[i := held] == s[i := held];
    }
  }

  /** Every one of `n` nested gets binds the slot the first one bound; only its count grows. */
  lemma GetTimesBindsOneSlot(s: seq<SlotState>, tid: int, n: nat)
    requires tid != 0 && Get(s, tid).slot.Some? && n >= 1
    ensures var i := Get(s, tid).slot.value;
            GetTimes(s, tid, n) == s[i := SlotState(tid, s[i].useCount + n)]
  {
    var i := Get(s, tid).slot.value;
    var s1 := Get(s, tid).states;
    var held := SlotState(tid, s[i].useCount + n);
    assert GetTimes(s, tid, n) == GetTimes(s1, tid, n - 1);
    assert IsFirstOwnedBy(s1, tid, i);
    GetTimesOwned(s1, tid, i, n - 1);
    assert s1[i := held] == s[i := held];
  }

  /** `n` releases lower the count by `n` and free the slot exactly when it reaches 0. */
  lemma {:induction false} ReleaseTimesAt(s: seq<SlotState>, i: nat, n: nat)
    requires i < |s| && s[i].useCount >= n && n >= 1
    ensures ReleaseTimes(s, i, n)
            == s[i := if s[i].useCount == n then Free else SlotState(s[i].owner, s[i].useCount - n)]
    decreases n
  {
    var s1 := ReleaseAt(s, i);
    if n > 1 {
      ReleaseTimesAt(s1, i, n - 1);
      assert s1[i := if s1[i].useCount == n - 1 then Free else SlotState(s1[i].owner, s1[i].useCount - (n - 1))]
             == s[i := if s[i].useCount == n then Free else SlotState(s[i].owner, s[i].useCount - n)];
    }
  }

  /** Acquiring `n` times and destroying all `n` handles restores the pool exactly. */
  lemma AcquireReleaseRoundTrip(s: seq<SlotState>, tid: int, n: nat)
    requires Inv(s) && tid != 0 && Get(s, tid).slot.Some?
    ensures var i := Get(s, tid).slot.value;
            var held := GetTimes(s, tid, n);
            i < |held| && held[i].useCount >= n && ReleaseTimes(held, i, n) == s
  {
    var i := Get(s, tid).slot.value;
    if n >= 1 {
      GetTimesBindsOneSlot(s, tid, n);
      var held := GetTimes(s, tid, n);
      ReleaseTimesAt(held, i, n);
      assert held[i] == SlotState(tid, s[i].useCount + n);
      assert (if held[i].useCount == n then Free else SlotState(tid, held[i].useCount - n)) == s[i];
      assert held[i := s[i]] == s;
    }
  }

  /**
   * Release frees for reuse: while a thread holds its claimed slot no other
   * thread can bind it; once all its handles are gone, the next new thread
   * claims exactly that slot.
   */
  lemma ReleaseFreesForReuse(s: seq<SlotState>, tid: int, other: int, n: nat)
    requires Inv(s) && tid != 0 && other != 0 && other != tid && n >= 1
    requires !OwnsSome(s, tid) && !OwnsSome(s, other) && Get(s, tid).slot.Some?
    ensures var i := Get(s, tid).slot.value;
            var held := GetTimes(s, tid, n);
            i < |held| && held[i].useCount >= n
            && Get(held, other).slot != Some(i)
            && Get(ReleaseTimes(held, i, n), other).slot == Some(i)
  {
    var i := Get(s, tid).slot.value;
    GetTimesBindsOneSlot(s, tid, n);
    AcquireReleaseRoundTrip(s, tid, n);
    assert !OwnsSome(GetTimes(s, tid, n), other);
  }

  /**
   * Exhaustion: when get fails for `tid`, every slot is held by another
   * thread; once a holder of a single handle destroys it, get succeeds and
   * binds the slot just vacated.
   */
  lemma ExhaustionRecovers(s: seq<SlotState>, tid: int, k: nat)
    requires Inv(s) && tid != 0 && Get(s, tid).slot.None?
    requires k < |s| && s[k].useCount == 1
    ensures Get(ReleaseAt(s, k), tid).slot == Some(k)
  {
    var t := ReleaseAt(s, k);
    assert t[k].owner == 0;
    assert forall j :: 0 <= j < |t| && j != k ==> t[j] == s[j];
  }

  /**
   * Two slots, three threads: T1 and T2 bind slots 0 and 1, T3 gets a null
   * handle; after T1's handle is destroyed, T3 binds slot 0.
   */
  lemma TwoSlotScenario(t1: int, t2: int, t3: int)
    requires t1 != 0 && t2 != 0 && t3 != 0 && t1 != t2 && t1 != t3 && t2 != t3
    ensures var a1 := Get([Free, Free], t1);
            var a2 := Get(a1.states, t2);
            a1.slot == Some(0) && a2.slot == Some(1)
            && a2.states == [SlotState(t1, 1), SlotState(t2, 1)]
            && Get(a2.states, t3).slot == None
            && Get(ReleaseAt(a2.states, 0), t3).slot == Some(0)
  {
    var s0 := [Free, Free];
    assert IsFirstOwnedBy(s0, 0, 0);
    var s1 := Get(s0, t1).states;
    assert s1 == [SlotState(t1, 1), Free];
    assert IsFirstOwnedBy(s1, 0, 1);
    var s2 := Get(s1, t2).states;
    assert s2 == [SlotState(t1, 1), SlotState(t2, 1)];
    assert ReleaseAt(s2, 0) == [Free, SlotState(t2, 1)];
    assert IsFirstOwnedBy(ReleaseAt(s2, 0), 0, 0);
  }

  // ---------------------------------------------------------------------
  // Discrepancies in the source, modelled as written beside the corrected
  // behaviour used everywhere else.

  /** What constructing the handle does: acquire a slot, or dereference null. */
  datatype Outcome = Bound(slot: nat) | NullDereference

  /**
   * get as written: on exhaustion it builds the handle from a null pointer,
   * and that constructor calls acquire through it.
   */
  function GetAsWritten(s: seq<SlotState>, tid: int): (r: Outcome)
    requires tid != 0
    ensures r.NullDereference? <==> !OwnsSome(s, tid) && !OwnsSome(s, 0)
    ensures r.Bound? ==> Get(s, tid).slot == Some(r.slot)
  {
    match Scan(s, tid).slot
    case Some(i) => Bound(i)
    case None => NullDereference
  }

  /** A one-slot pool held by thread 5: thread 7's get dereferences null as written, and gets a null handle in the corrected model. */
  lemma FullPoolDereferencesNull()
    ensures GetAsWritten([SlotState(5, 1)], 7) == NullDereference
    ensures Get([SlotState(5, 1)], 7).slot.None?
    ensures Get([SlotState(5, 1)], 7).states == [SlotState(5, 1)]
  {
    assert !OwnsSome([SlotState(5, 1)], 7);
    assert !OwnsSome([SlotState(5, 1)], 0);
  }

  /** The debug check acquire makes as written: the slot is not owned by the calling thread. */
  predicate AcquireDebugCheck(owner: int, curTid: int)
  {
    owner != curTid
  }

  /** Every acquire that get performs finds the slot owned by the calling thread. */
  lemma AcquireSeesOwner(s: seq<SlotState>, tid: int)
    requires tid != 0 && Scan(s, tid).slot.Some?
    ensures var r := Scan(s, tid);
            r.slot.value < |r.states| && r.states[r.slot.value].owner == tid
  {
  }

  /** Hence every acquire that get performs fails the debug check as written. */
  lemma GetFailsAcquireDebugCheck(s: seq<SlotState>, tid: int)
    requires tid != 0 && Scan(s, tid).slot.Some?
    ensures var r := Scan(s, tid);
            r.slot.value < |r.states| && !AcquireDebugCheck(r.states[r.slot.value].owner, tid)
  {
    AcquireSeesOwner(s, tid);
  }
}
