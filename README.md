# Xpedite interception core: thread-slot pool and call-site registry

This project models, in Dafny, two in-process components on Xpedite's
interception hot path:

- **The thread-slot pool** (`lib/xpedite/intercept/TlScopedDatum.H`). A
  fixed array of `MaxSize` slots stands in for per-thread dynamic allocation.
  Each slot holds an owner thread id (0 means free), a nested-use count and a
  payload. `TlScopedData::get` first looks for a slot the calling thread
  already owns (re-entry). Failing that, it claims the first free slot with a
  compare-and-set. If both fail, it returns a null handle. Handles are
  move-only. Destroying a bound handle releases its slot: the count drops by
  one, and the slot is freed when the count reaches 0.
- **The call-site registry** (`include/xpedite/framework/CallSiteInfo.H`).
  An immutable record (address, attribute, id) answers five capability
  queries. A map from address to record is filled by `add` and read by
  `locateInfo`.

Files:

- `wrappers.dfy`: the `Option` type used where the source returns a
  possibly-null pointer.
- `slot_spec.dfy` (module `SlotSpec`): the pool as a value, a sequence of
  (owner, useCount) pairs. It defines what `get` and a release do to that
  sequence, the pool invariant, and the lemmas about them.
- `scoped_data.dfy` (module `ScopedData`): the classes `Slot`
  (TlScopedDatum), `Handle` (TlScopedDatumPtr) and `Pool` (TlScopedData),
  which update state in place. `Pool.Get` and `Handle.Destroy` are proved
  against `SlotSpec.Get` and `SlotSpec.ReleaseAt`.
- `call_sites.dfy` (module `CallSites`): the record datatype, the pure map
  operations (`Emplace` for `unordered_map::emplace`, `Locate` for the
  lookup), their lemmas, and the class `CallSiteMap`.

The thread id is a parameter that is never 0, as the platform guarantees.
The compare-and-set runs sequentially on one model state.

Duplicate adds follow the code. `add` calls `emplace`, which never
overwrites, so the first record added for an address is the one that stays.
The model does not use last-write-wins.

## Model

| member | source | states |
|---|---|---|
| `SlotSpec.FirstOwnedBy` | lib/xpedite/intercept/TlScopedDatum.H:127-137 | Each scan of `get` returns a slot exactly when some slot has the owner it looks for. That slot is the first such slot. |
| `SlotSpec.Acquired` | lib/xpedite/intercept/TlScopedDatum.H:55-59 | `acquire` keeps the owner and raises the count by exactly 1. A release undoes it when the count was already positive; from count 0 the release frees the slot instead. |
| `SlotSpec.Released` | lib/xpedite/intercept/TlScopedDatum.H:61-66 | A release lowers the count by exactly 1. The owner becomes 0 exactly when the count reaches 0; otherwise it is kept. |
| `SlotSpec.Scan` | lib/xpedite/intercept/TlScopedDatum.H:125-138 | Re-entry: if the caller owns a slot, the first such slot is chosen and nothing changes. Claim: otherwise the first free slot is chosen and only its owner becomes the caller. Exhaustion: if neither exists, no slot is chosen and nothing changes. |
| `SlotSpec.Get` | lib/xpedite/intercept/TlScopedDatum.H:124-139 | `get` returns a null handle exactly when every slot is owned by another thread. Otherwise the chosen slot ends up owned by the caller with its count one higher. Every other slot is unchanged. |
| `SlotSpec.ReleaseAt` | lib/xpedite/intercept/TlScopedDatum.H:94-98 | Destroying a handle bound to slot i changes only slot i. Its count drops by 1, it becomes free exactly when the count was 1, and otherwise it keeps its owner. |
| `SlotSpec.GetPreservesInv` | lib/xpedite/intercept/TlScopedDatum.H:124-139 | `get` preserves the pool invariant: counts never go negative, a slot is free exactly when its count is 0, and no thread owns two slots. |
| `SlotSpec.ReleasePreservesInv` | lib/xpedite/intercept/TlScopedDatum.H:61-66 | Releasing a slot with a positive count preserves the pool invariant. |
| `SlotSpec.GetKeepsCounted` | lib/xpedite/intercept/TlScopedDatum.H:124-139 | The handle invariant (each slot's count is the number of live handles bound to it) survives `get`: a bound handle adds one handle on its slot, and a null handle adds none. |
| `SlotSpec.ReleaseKeepsCounted` | lib/xpedite/intercept/TlScopedDatum.H:61-66 | Destroying a live handle on slot i finds a positive count there, so the assertion at line 62 holds. The handle invariant survives with that one handle removed. |
| `SlotSpec.Replay` | lib/xpedite/intercept/TlScopedDatum.H:55-139 | For any interleaving of gets and handle destructions by any threads, every release meets its positive-count precondition. The pool invariant and the handle invariant hold after every event. |
| `SlotSpec.ReentryBindsSameSlot` | lib/xpedite/intercept/TlScopedDatum.H:126-131 | A nested `get` by the same thread binds the slot the first one bound. Only that slot's count grows, to two above where it started. |
| `SlotSpec.GetTimesOwned` | lib/xpedite/intercept/TlScopedDatum.H:127-130 | Once the caller owns a slot (the first it owns), n further `get`s leave it owning that slot with the count raised by n. Every other slot is unchanged. |
| `SlotSpec.GetTimesBindsOneSlot` | lib/xpedite/intercept/TlScopedDatum.H:125-139 | All of n ≥ 1 nested `get`s bind one slot. The caller owns it with its count raised by n, and every other slot is unchanged. |
| `SlotSpec.ReleaseTimesAt` | lib/xpedite/intercept/TlScopedDatum.H:61-66 | n releases lower the count by n. The slot becomes free (owner 0, count 0) exactly when the count reaches 0; otherwise its owner is kept. |
| `SlotSpec.AcquireReleaseRoundTrip` | lib/xpedite/intercept/TlScopedDatum.H:124-139 | n `get`s followed by destroying the n handles restores the whole pool exactly, on both the re-entry and the claim path. |
| `SlotSpec.ReleaseFreesForReuse` | lib/xpedite/intercept/TlScopedDatum.H:133-137 | While one thread holds a claimed slot, another thread's `get` cannot bind it. After all of the first thread's handles are gone, the next new thread claims exactly that slot. |
| `SlotSpec.ExhaustionRecovers` | lib/xpedite/intercept/TlScopedDatum.H:133-138 | When `get` fails for a thread, destroying a single-use handle on slot k makes that thread's next `get` bind slot k. |
| `SlotSpec.TwoSlotScenario` | lib/xpedite/intercept/TlScopedDatum.H:124-139 | With two slots, T1 binds slot 0 and T2 binds slot 1. T3 then gets a null handle. After T1 releases, T3 binds slot 0. |
| `SlotSpec.GetAsWritten` | lib/xpedite/intercept/TlScopedDatum.H:133-138 | As written, `get` dereferences a null pointer exactly when the pool is exhausted for the caller. In every other case it binds the same slot as the corrected `Get`. |
| `SlotSpec.FullPoolDereferencesNull` | lib/xpedite/intercept/TlScopedDatum.H:78-81 | A one-slot pool is held by thread 5. As written, thread 7's `get` dereferences null. In the corrected model it gets a null handle and the pool is unchanged. |
| `SlotSpec.GetFailsAcquireDebugCheck` | lib/xpedite/intercept/TlScopedDatum.H:55-59 | Whenever `get` reaches `acquire`, the debug check `_tid != gettid()` fails. This follows from `AcquireSeesOwner`. |
| `SlotSpec.AcquireSeesOwner` | lib/xpedite/intercept/TlScopedDatum.H:55-59 | Whenever `get` reaches `acquire`, the slot is owned by the calling thread. |
| `ScopedData.Slot.constructor` | lib/xpedite/intercept/TlScopedDatum.H:36-38 | A new slot is free and unused. |
| `ScopedData.Slot.IsUsed` | lib/xpedite/intercept/TlScopedDatum.H:46-48 | True exactly when the slot's owner equals the given thread id. Nothing changes. |
| `ScopedData.Slot.TryUse` | lib/xpedite/intercept/TlScopedDatum.H:50-53 | Succeeds exactly when the owner was 0. On success the owner becomes the given thread; on failure it is unchanged. Nothing but the owner may change. |
| `ScopedData.Slot.Acquire` | lib/xpedite/intercept/TlScopedDatum.H:55-59 | Requires a non-negative count. Raises the count by exactly 1 and changes nothing else. |
| `ScopedData.Slot.Release` | lib/xpedite/intercept/TlScopedDatum.H:61-66 | Requires a positive count. Lowers the count by 1 and resets the owner to 0 exactly when the count reaches 0. The payload is untouched. |
| `ScopedData.Handle.Bind` | lib/xpedite/intercept/TlScopedDatum.H:78-81 | The pointer constructor takes a non-null slot and acquires it. In the pool, only that slot's count changes, by +1, and the pool counts one more live handle on that slot. |
| `ScopedData.Handle.Null` | lib/xpedite/intercept/TlScopedDatum.H:138 | The exhaustion result is a null handle, and no slot is touched. |
| `ScopedData.Handle.Move` | lib/xpedite/intercept/TlScopedDatum.H:89-92 | A move binds the new handle to the source's slot and leaves the source null. No count changes, and both handles still point at their pool's slot. The source must still be live: a handle whose destructor has run cannot be moved from. |
| `ScopedData.MoveRun` | lib/xpedite/intercept/TlScopedDatum.H:89-98 | After a move, the count is still 1. Destroying the moved-from handle releases nothing, and destroying the new handle frees the slot. |
| `ScopedData.Handle.Destroy` | lib/xpedite/intercept/TlScopedDatum.H:94-98 | Runs once per handle. It needs only that the handle is live and counted by its pool; the positive count that release asserts then follows. A bound handle releases its slot: the pool becomes `ReleaseAt` of the old pool, stops counting the handle, and stays valid. A null handle changes no slot. |
| `ScopedData.Handle.UseCount` | lib/xpedite/intercept/TlScopedDatum.H:100-103 | 0 for a null handle; otherwise the bound slot's count. |
| `ScopedData.Handle.IsBound` | lib/xpedite/intercept/TlScopedDatum.H:109-111 | True exactly when the handle is non-null. |
| `ScopedData.Pool.constructor` | lib/xpedite/intercept/TlScopedDatum.H:117-122 | The slot array has `maxSize` distinct, newly allocated slots, all free. `Repr` is exactly those slots, no handle is live, and the pool invariant holds. |
| `ScopedData.Pool.FindOwned` | lib/xpedite/intercept/TlScopedDatum.H:127-131 | The first loop of `get` returns the first slot owned by the caller, or none. It changes nothing. |
| `ScopedData.Pool.ClaimFree` | lib/xpedite/intercept/TlScopedDatum.H:133-137 | The second loop returns the first free slot, now owned by the caller. Failed compare-and-sets change nothing. |
| `ScopedData.Pool.ScanSlots` | lib/xpedite/intercept/TlScopedDatum.H:127-137 | The two loops together choose the slot `SlotSpec.Scan` chooses and leave the pool as it prescribes. No payload changes. |
| `ScopedData.Pool.Get` | lib/xpedite/intercept/TlScopedDatum.H:124-139 | The new pool state and the handle's slot (null on exhaustion) are exactly what `SlotSpec.Get` prescribes. A bound handle is counted on its slot. The invariant holds afterwards, and no payload changes. |
| `ScopedData.OneSlotRun` | lib/xpedite/intercept/TlScopedDatum.H:78-139 | On a new one-slot pool, `get` returns a bound handle whose `useCount()` is 1. Destroying it frees the slot (owner 0, count 0). |
| `ScopedData.TwoPoolsRun` | lib/xpedite/intercept/TlScopedDatum.H:117-139 | A `get` on one pool leaves another pool's slot free and unused. |
| `CallSites.CallSiteInfo.CanStoreData` | include/xpedite/framework/CallSiteInfo.H:38 | Answers the attribute's store-data flag. |
| `CallSites.CallSiteInfo.CanBeginTxn` | include/xpedite/framework/CallSiteInfo.H:39 | Answers the attribute's begin-transaction flag. |
| `CallSites.CallSiteInfo.CanSuspendTxn` | include/xpedite/framework/CallSiteInfo.H:40 | Answers the attribute's suspend-transaction flag. |
| `CallSites.CallSiteInfo.CanResumeTxn` | include/xpedite/framework/CallSiteInfo.H:41 | Answers the attribute's resume-transaction flag. |
| `CallSites.CallSiteInfo.CanEndTxn` | include/xpedite/framework/CallSiteInfo.H:42 | Answers the attribute's end-transaction flag. |
| `CallSites.RecordKeepsArguments` | include/xpedite/framework/CallSiteInfo.H:29-42 | `callSite()` and `id()` return the constructor arguments. Each of the five `can*` queries returns the matching flag of the attribute. |
| `CallSites.Emplace` | include/xpedite/framework/CallSiteInfo.H:60 | After `emplace`, the address is present. It holds the earlier record if there was one, and otherwise the new record. No other address is added, removed or changed. |
| `CallSites.Locate` | include/xpedite/framework/CallSiteInfo.H:63-69 | `find` yields a record exactly when the address is a key, and then the stored record. |
| `CallSites.AddThenLocate` | include/xpedite/framework/CallSiteInfo.H:59-69 | After adding a record for an absent address, lookup at that address finds that record. |
| `CallSites.DuplicateAddKeepsFirst` | include/xpedite/framework/CallSiteInfo.H:59-61 | Adding a record for an address already present leaves the map unchanged, so the first record stays. |
| `CallSites.AddFrame` | include/xpedite/framework/CallSiteInfo.H:59-68 | An add changes no lookup at any other address. |
| `CallSites.AddKeepsKeyed` | include/xpedite/framework/CallSiteInfo.H:60 | An add keeps every entry keyed by its own record's address. |
| `CallSites.LocateAfterAdds` | include/xpedite/framework/CallSiteInfo.H:59-69 | After any sequence of adds, an address never added is not found. An added address finds the first record added for it. |
| `CallSites.BuildKeyedBySelf` | include/xpedite/framework/CallSiteInfo.H:59-61 | A registry filled by adds keeps every entry keyed by its own record's address. |
| `CallSites.RegistryScenario` | include/xpedite/framework/CallSiteInfo.H:29-69 | Register 0xABCD with store-data and end-transaction set and id 7. It is found with those flags, the other three flags unset, and id 7. 0x1234 is not found. |
| `CallSites.CallSiteMap.constructor` | include/xpedite/framework/CallSiteInfo.H:53-55 | The registry starts empty. |
| `CallSites.CallSiteMap.Add` | include/xpedite/framework/CallSiteInfo.H:59-61 | The map becomes `Emplace` of the old map: the record is inserted only if its address is absent. The keyed-by-self invariant holds afterwards, and lookups at other addresses do not change. |
| `CallSites.CallSiteMap.LocateInfo` | include/xpedite/framework/CallSiteInfo.H:63-69 | Finds a record exactly when the address is in the map, and returns that stored record. The record's own address is the key. The map is only read. |

## Findings

| source | as written | input that shows it | evidently intended | confidence | as-written member | corrected member |
|---|---|---|---|---|---|---|
| lib/xpedite/intercept/TlScopedDatum.H:138 | On exhaustion, `get` builds the handle from `nullptr`. The pointer constructor (line 80) then calls `acquire()` through that null pointer. | A one-slot pool held by thread 5, then `get` from thread 7. | A null handle, without calling `acquire`. | high; not executed | `SlotSpec.GetAsWritten`, `SlotSpec.FullPoolDereferencesNull` | `SlotSpec.Get`, `ScopedData.Handle.Null` |
| lib/xpedite/intercept/TlScopedDatum.H:57 | The debug assertion in `acquire` requires the slot's owner to differ from the calling thread. Both call sites in `get` (lines 128, 134) reach `acquire` with the owner equal to the caller. | Any successful `get`. For example, an empty one-slot pool and thread 7: the owner is 7 when `acquire` runs. | The owner equals the calling thread. | medium; not executed | `SlotSpec.AcquireDebugCheck`, `SlotSpec.GetFailsAcquireDebugCheck` | `SlotSpec.AcquireSeesOwner` |

The as-written check is not a precondition of `Slot.Acquire`. If it were, no call from `get` could satisfy it. The model's `Acquire` keeps only the line 56 check, a non-negative count.

## Left out

- Concurrency is not modelled: no `std::atomic`, no relaxed memory ordering, and no races between threads on the compare-and-set. Each operation runs sequentially on one state.
- `util::gettid()` is a platform call, and `xpedite/util/Util.H` is not part of this model. The thread id is a parameter, never 0.
- The payload type and its accessors (`data()`, `operator->`) are not modelled. The payload is an opaque field of type `T`. `get` and release are proved not to change it.
- The bit encoding of `probes::CallSiteAttr` is not modelled (`include/xpedite/probes/CallSite.H` is not part of this model). The attribute is five independent booleans.
- `toString` of both classes is left out. It is `ostringstream` formatting of a pointer and of the attribute's own `toString`, which cannot be seen.
- Layout details are left out: `__attribute__((packed))`, `unordered_map` hashing, buckets and iteration order. Addresses are naturals, not raw `const void*` values, and the map is a Dafny `map`.
- The static, per-template pool `_tlScopedData` is modelled as one `Pool` object built with `maxSize` slots. A handle's pool and slot index are ghost, because the source's pointer determines both.
- `_useCount` is a 32-bit `int` and `pid_t` is 32-bit; both are unbounded integers here. Overflow after 2^31 nested acquisitions is not modelled.
- Copying and move-assigning handles are deleted in the source. Dafny references can always be copied, so the model cannot forbid aliasing a `Handle`. `ScopedData.Handle.Destroy` instead requires a ghost `live` flag, which models that the destructor runs exactly once.
- The pool's ghost multiset of live handle slots is bookkeeping, not a set of `Handle` objects. That a handle's own slot index is in that multiset is a precondition of `ScopedData.Handle.Destroy`, not a proved property of the heap. `SlotSpec.Replay` proves the same invariant at the value level for any interleaving.
- `SlotSpec.Replay` skips events the source cannot produce: a `get` from thread id 0, and the destruction of a handle on a slot where no handle is live.
- `Repr` (the pool's slot objects) is pinned exactly by the pool constructor. `Valid()` does not repeat the set equality, because the set comprehension makes every pool proof far more expensive.
- The registry's build-then-freeze discipline (all adds before any concurrent lookup) is the caller's duty. It is not modelled beyond `LocateInfo` being a read-only function.
