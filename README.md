# generic-pool in Dafny

A model of the bounded resource pool of `axetroy/generic-pool` (Go), with
proofs of what its operations do.

The pool hands out caller-made resources:

- While the store holds fewer than `Max` records, `Get` asks the creator for
  a new resource.
- At `Max`, `Get` hands out an existing record again.
- `Release(id)` destroys one record.
- `Destroy` releases everything and then marks the pool destroyed.
- A reaper, `checkIdle`, evicts timed-out records down to `Min` and flags the
  records it keeps as idle.

Records live in a `SafeMap`, a map guarded by a lock.

## Layout

- `wrappers.dfy`: `Option` and `Result`.
- `map_range.dfy`: Go's `for k := range m`. The runtime picks the visit
  order, so `RangeOrder` chooses one key at a time. `Enumerates` says a
  sequence visits every key exactly once.
- `safemap.dfy`: the class `SafeMap` (safemap.go). Its one field `bm` is the
  guarded map, which `Set` and `Delete` reassign.
- `pool_spec.dfy`: the pool as a state machine on values. `PoolState` holds:
  - the options;
  - the records by id;
  - the id counter `index`;
  - the `destroyed` flag.

  Each operation is a function from the state before a call to the state
  after it. The lemmas state the pool's guarantees on these functions.
- `pool.dfy`: the pool as the objects pool.go manipulates.
  - `Pool` has the fields `index` and `destroyed`, which change in place, and
    a `SafeMap` store from ids to `Resource` objects.
  - `Get` and `checkIdle` write a `Resource`'s fields through the reference
    that the store and the `Items()` snapshots share.
  - The ghost field `records` and the predicate `Mirrors` tie the objects to
    a `PoolState`.
  - `Get`, `Create`, `Reuse`, `Release`, `Destroy`, `CheckIdle` and `Reap`
    each promise the matching transition of `PoolSpec` applied to
    `old(State())`, so the lemmas there hold of the objects. They also promise
    that every id still in the store holds the same `Resource` object as
    before the call. `MarkUsed` and `MarkIdle` are field writes through one
    reference, and `PickReuse` is the reuse search's loop; each promises its
    own effect, which the callers combine into a transition.

How the model treats the parts of the pool that are not plain bookkeeping:

- **Callbacks.** The creator and the destroyer are opaque.
  - `creator: Id -> Result<P, Error>` gives the creator's answer for the id it
    is called with.
  - A destroyer is an `Outcome` (`Pass` or `Fail(error)`). `Release` takes
    the outcome of its one possible destroyer call. `Destroy` and `checkIdle`
    take `destroyer: Id -> Outcome`, the outcome for the record being
    destroyed; each call visits each record at most once.
- **Time.** Time is a parameter `now`, an integer count of nanoseconds.
  - `Get` compares nanoseconds (`UnixNano`).
  - `checkIdle` compares whole seconds (`Unix`, floor division), and adds the
    idle timeout with 64-bit wrap-around (`Wrap64`).
- **Map iteration order.** A `ghost` out-parameter `order` reports the order
  the runtime chose, so every property holds for every order.

Three behaviours of pool.go differ from what its comments and names
suggest. The model follows the code:

- **Reuse is not least-recently-used.** The comments at pool.go:138 and
  pool.go:144 describe the reuse path as finding the resource used longest
  ago. The loop at pool.go:145-156 picks the first record visited. It
  switches only to the first later record strictly older than that one, and
  then stops. `ReuseIsNotLeastRecentlyUsed` gives three records on which the
  two differ.
- **Reuse returns the wrapper.** Below `Max`, `Get` returns the creator's
  payload (pool.go:135). At `Max` it returns the `*Resource` wrapper instead
  (pool.go:164). On an empty store with `Max == 0`
  that wrapper is a nil reference, returned with a nil error.
- **Timeouts are in whole seconds.** `Get` stamps `LastUseAt` with full
  nanosecond precision (pool.go:129, 159). The reaper compares only whole
  seconds, `now.Unix() > LastUseAt.Unix() + Idle` (pool.go:93-95), not the
  exact elapsed time.

## Model

| member | source | states |
|---|---|---|
| SafeMaps.SafeMap.constructor | safemap.go:28-33 | a new store is empty |
| SafeMaps.SafeMap.Get | safemap.go:36-43 | returns the stored value exactly when the key is present, and nothing (nil) otherwise |
| SafeMaps.SafeMap.Set | safemap.go:47-58 | afterwards the key maps to the value and every other entry is kept; it reports a change exactly when the key was absent or held a different value, and with no change the map is unchanged |
| SafeMaps.SafeMap.Check | safemap.go:61-66 | true exactly when `Get` finds the key |
| SafeMaps.SafeMap.Delete | safemap.go:69-73 | removes the key and keeps every other entry; a missing key changes nothing |
| SafeMaps.SafeMap.Items | safemap.go:76-84 | the copy built entry by entry equals the contents |
| SafeMaps.SafeMap.Count | safemap.go:87-91 | the number of keys |
| SafeMaps.ItemsIsSnapshot | safemap.go:76-84 | a copy taken by `Items` is unchanged by a later `Set` and `Delete` on the store |
| SafeMaps.SetEffect | safemap.go:47-58 | after `Set(k, v)`, `k` holds `v`, the other keys are unchanged, and the count grows by one exactly when `k` was new |
| SafeMaps.DeleteEffect | safemap.go:69-73 | after `Delete(k)`, `k` is gone, every other key keeps its value, and the count drops by one exactly when `k` was present |
| MapRange.RangeOrder | pool.go:91 | a `range` over a map visits every key exactly once, in an order chosen by the runtime |
| PoolSpec.Wrap64 | pool.go:93 | 64-bit two's-complement addition: in range it is exact, and just above `MaxInt64` it wraps to the negatives |
| PoolSpec.Normalize | pool.go:55-65 | negative `Min` becomes 0, negative `Max` becomes `Min + 1` (with wrap-around), `Idle <= 0` becomes 30; in-range options are kept |
| PoolSpec.Validate | pool.go:45-70 | a nil creator fails first, then a nil destroyer; otherwise it fails exactly when normalised `Max < Min`; success gives the normalised options with `0 <= Min <= Max` and `Idle > 0` |
| PoolSpec.ValidateKeepsWellFormed | pool.go:55-70 | options already in range are accepted unchanged |
| PoolSpec.ValidateExamples | pool.go:55-70 | the defaults on concrete options, including rejecting `Min > Max` and `Max = Min + 1` wrapping at the largest `Min` |
| PoolSpec.Initial | pool.go:72-76 | a new pool satisfies the invariant, has an empty store and is not destroyed |
| PoolSpec.FirstOlderFrom | pool.go:145-156 | the reuse search: the result is 0, or the first later position strictly older than the first record; every record it passes is no older than the first |
| PoolSpec.GetStep | pool.go:115-166 | no contract of its own: one `Get` call on the state; its properties are stated by `GetCreates`, `GetReuses`, `GetPreservesInv` and `DestroyedIsTerminal` |
| PoolSpec.CreateStep | pool.go:122-136 | no contract of its own: the path below `Max`; its properties are stated by `GetCreates` |
| PoolSpec.ReuseStep | pool.go:137-164 | no contract of its own: the path at `Max`; its properties are stated by `GetReuses` and `ReuseIsNotLeastRecentlyUsed` |
| PoolSpec.GetCreates | pool.go:122-136 | below `Max`, the creator is called with `index + 1`; on error nothing changes and the error is returned; on success exactly one record (unused, not idle, last used now) is added under the new id, which is larger than every existing id, and `index` advances by one |
| PoolSpec.GetReuses | pool.go:137-164 | at `Max`, no record is added; on an empty store (`Max` is 0) nothing changes and a nil wrapper is handed out; otherwise exactly the record the search picks gets `LastUseAt = now`, `Idle = false` and one more use, and every other record is unchanged; the picked record is the oldest of those visited up to it, and of all records when it is the first |
| PoolSpec.ReuseIsNotLeastRecentlyUsed | pool.go:151-155 | visiting records last used at 5, 4 and 3 picks the one used at 4, although the one used at 3 is older |
| PoolSpec.GetPreservesInv | pool.go:115-166 | every `Get` keeps the invariant (`Count <= Max`, ids in `1..index`, destroyed means empty) and moves `index` by at most one, never backwards |
| PoolSpec.ReleaseStep | pool.go:171-183 | no contract of its own: one `Release(id)` call; its properties are stated by `ReleaseEffect` |
| PoolSpec.ReleaseEffect | pool.go:171-183 | removes exactly `id`, and only when it is present and its destroyer succeeds; a destroyer error is returned and changes nothing; an absent id returns nil; other records, `index` and the flag are kept |
| PoolSpec.DestroyRun | pool.go:188-197 | no contract of its own: one `Destroy` call over a visit order; its properties are stated by `DestroyRunEffect` and `DestroyOutcome` |
| PoolSpec.FirstFailure | pool.go:189-194 | the position where `Destroy` stops: every earlier destroyer succeeds, and the one there fails |
| PoolSpec.DestroyRunEffect | pool.go:188-197 | `Destroy` removes exactly the records visited before the first failing one, returns that failure's error, and sets the flag exactly when none fails |
| PoolSpec.DestroyOutcome | pool.go:188-197 | succeeds exactly when every destroyer succeeds, and then the store is empty and the flag set (an empty pool included); on failure the flag stays false and the failing record stays, unchanged; the invariant holds after it |
| PoolSpec.TimedOut | pool.go:93-95 | no contract of its own: the reaper's whole-second timeout test, used by `ReapRunShape`, `ReapRunVisits` and `CheckIdleBounds` |
| PoolSpec.ReapOne | pool.go:92-107 | no contract of its own: the reaper's work on one record; its properties are stated by `ReapRunShape` and `ReapRunVisits` |
| PoolSpec.ReapRun | pool.go:91-108 | no contract of its own: the reaper's scan; its properties are stated by `ReapRunShape`, `ReapRunOutside`, `ReapRunVisits` and `ReapRunConverges` |
| PoolSpec.CheckIdleStep | pool.go:89-110 | no contract of its own: one `checkIdle` tick; its properties are stated by `CheckIdleBounds` and `CheckIdleConverges` |
| PoolSpec.ReapRunShape | pool.go:91-108 | for any visit order, the scan removes only timed-out records whose destroyer succeeds, never takes the store from at least `Min` to below it, and otherwise only flags timed-out records idle once the store is at `Min` or below |
| PoolSpec.ReapRunConverges | pool.go:91-108 | when every record has timed out and every destroyer succeeds, a scan over the records still to visit leaves exactly `Min` records, all idle |
| PoolSpec.ReapRunOutside | pool.go:91-108 | the scan leaves every record it does not visit in place and unchanged |
| PoolSpec.ReapRunVisits | pool.go:92-107 | for any visit order, a timed-out record that the scan visits and keeps either had a failing destroyer and is unchanged, or is flagged idle with the store at or below `Min` |
| PoolSpec.CheckIdleBounds | pool.go:89-110 | at or below `Min` nothing changes; above `Min` the store never goes below `Min`; records not timed out, and records whose destroyer fails, stay; a changed record is a timed-out one flagged idle; when the tick scans every record, a timed-out record it keeps had a failing destroyer and is unchanged, or is flagged idle with the store at or below `Min`; the invariant holds |
| PoolSpec.CheckIdleConverges | pool.go:89-110 | above `Min`, when every record has timed out and every destroyer succeeds, one tick leaves exactly `Min` records, all idle |
| PoolSpec.DestroyedIsTerminal | pool.go:116-119 | once destroyed (the flag set at pool.go:195), `Get` returns the destroyed error and changes nothing, without calling the creator, and `Release`, `checkIdle` and `Destroy` change nothing and succeed |
| GenericPool.Resource.constructor | pool.go:128-134 | a new resource carries its id and payload, is not idle, is unused, and was last used now |
| GenericPool.PickReuse | pool.go:139-156 | the loop over the snapshot picks the resource at the position `FirstOlderFrom` gives, or nil when there are no records |
| GenericPool.Pool.constructor | pool.go:72-76 | a new pool object with a fresh, empty store is in the state `Initial` |
| GenericPool.Pool.Get | pool.go:115-166 | performs `GetStep` on the pool's state, keeps the invariant and the link between objects and records, and returns the payload, the wrapper object of the picked record, nil, or the error the step gives; every id still stored holds the same object as before, and a handed-out wrapper is the object stored under its id, whose fields are the refreshed record |
| GenericPool.Pool.Create | pool.go:122-136 | the path below `Max`: performs `CreateStep` with the creator's answer for `index + 1`; every id stored before holds the same object as before |
| GenericPool.Pool.Reuse | pool.go:137-165 | the path at `Max`: performs `ReuseStep` for the order the snapshot was visited in, and returns the object stored under the picked id |
| GenericPool.Pool.MarkUsed | pool.go:158-162 | writing through the reference updates exactly that record: last used now, not idle, one more use |
| GenericPool.Pool.MarkIdle | pool.go:103-106 | writing through the reference flags exactly that record idle |
| GenericPool.Pool.Release | pool.go:171-183 | performs `ReleaseStep`: the loop over the snapshot finds `id` at most once and deletes it when its destroyer succeeds; the store is either unchanged or loses exactly the key `id` |
| GenericPool.Pool.Destroy | pool.go:188-197 | performs `DestroyRun` over the visit order, returning at the first error and setting `destroyed` only after the loop; every id still stored holds the same object as before |
| GenericPool.Pool.CheckIdle | pool.go:89-110 | performs `CheckIdleStep` over the visit order of the snapshot, and keeps the invariant; every id still stored holds the same object as before |
| GenericPool.Pool.Reap | pool.go:92-107 | one pass of the reaper's loop performs `ReapOne` for that record, removing at most that key from the store |
| GenericPool.New | pool.go:43-84 | fails exactly when `Validate` does, with its error; otherwise returns a fresh pool in the state `Initial` of the normalised options |

## Left out

- The `sync.RWMutex` of `SafeMap` (safemap.go:23, 37-38, 48-49, 62-63, 70-71, 77-78, 88-89) is concurrency control. The model is sequential.
- The ticker goroutine that `New` starts (pool.go:77-82) is background scheduling. `CheckIdle` is an ordinary method that a caller invokes.
- `time.Now()` (pool.go:94, 129, 159) is the parameter `now`.
- GenericPool.Pool.CheckIdle: it takes one `now` for the whole tick, whereas pool.go:94 reads the clock again for each record.
- The bodies of the creator and the destroyer are not modelled, and neither are calls they might make back into the pool. Only their outcomes are.
- `Config` is not kept in `Pool`: `New` only checks that both callbacks are set, and each operation takes the callbacks' outcomes as parameters.
- `Options.Min` and `Options.Max` are Go `int`s. The model gives them the type `Int64`, which assumes a 64-bit platform; on a 32-bit platform `Max = Min + 1` would wrap at 2^31 - 1 instead (pool.go:60).
- PoolSpec.GetCreates: `index` and `UseCount` are unbounded integers. Go's `int64` index and `int` use count would wrap after 2^63 - 1 increments, which is out of reach in practice.
- `interface{}` keys, values and type assertions (pool.go:92, 146, 174, 190) are replaced by the key type `Id` and a generic payload type `P`. With them goes the possibility that `val != v` in `SafeMap.Set` panics on values that cannot be compared.
- `Get`'s two result types, the payload and the `*Resource` wrapper, are kept apart by the datatype `Handout`.
- The `Check` before each `Delete` in `Release` and `checkIdle` always succeeds in a sequential run. It is modelled, but its false branch is never taken.
- example/main.go targets an older API, and pool_test.go targets an older slice-based pool. Neither is part of this model.
