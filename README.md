# keysort in Dafny

A model of the Go package `keysort`: a Schwartzian-transform adapter that lets
a standard comparison sort order a collection by an expensive key while
computing each element's key once.

The adapter (`keySortable` in `keysort.go`) wraps the user's collection and
exposes `Len`, `Swap` and `Less` to an external sort. Its state has three
parts:

- `swaps`: current position to original index, updated on every `Swap`.
- `memo`: original index to memoised key.
- `errors`: original index to the error its key computation returned.

The model has three modules and a module of concrete runs:

- `Permutation` (`permutation.dfy`): the position tracker as a sequence. It
  defines the identity arrangement, exchanging two entries, and
  "is a permutation of [0, n)". It proves that a permutation is a bijection
  and that `Swap` keeps one.
- `MemoCache` (`memocache.dfy`): the memo cache and key resolver as values.
  `Resolve` is one key resolution and `ResolveAll` a sequence of them. The
  lemmas prove coherence, monotonicity, at-most-once calls, priming and the
  no-op retry.
- `Keysort` (`keysort.dfy`): the adapter as a class `KeySortable<T, K, E>`.
  Its `swaps` array and the wrapped `array<T>` are changed in place by
  `Swap`, and its `memo` and `errors` maps are reassigned by `Key` and
  `ClearErrors`. Its methods are specified against `MemoCache.Resolve`,
  `MemoCache.ResolveAll` and `Permutation.Swapped`. `PrimedKeysort` builds
  and primes an adapter. `RunSort` stands for an external sort as any
  sequence of `Less` and `Swap` calls.
- `KeysortScenarios` (`scenarios.dfy`): two concrete runs. The data of the
  six-element run are those of `examples/example.go`.

The user's collection is modelled as follows:

- Elements of type `T` are held in an array that only the adapter's `Swap`
  changes.
- The collection's `Key(i)` is a total function `keyOf: T -> KeyOutcome<K, E>`.
  It is applied to the element currently at position `i`, as the collections
  in `keysort_test.go:118-120` and `examples/example.go:60-62` do.
- `KeyOutcome` carries a value and an optional error together, because Go
  returns both and the adapter memoises the value even on error.
- The collection's `LessVal` is a predicate `lessVal: (K, K) -> bool`.

Two ghost fields exist only in the model. `original` holds the elements as
they were when the adapter was built. `keyCalls` logs every original index
handed to the collection's `Key`, in order. The log is what "computed at most
once" is stated about.

## Behaviour as written

The model keeps the code's behaviour where it departs from its own doc
comments:

- `Key` (keysort.go:78-107) is documented as computing the key of the element
  currently at position `i`. When the key is not memoised, the code asks the
  collection for the key at the original index `swaps[i]`. The collection
  then reads the element currently at that position. So keys are only
  guaranteed right for indices memoised before any swap, which priming
  guarantees. A key computed later is the key of the element originally at
  `swaps[swaps[i]]`. It is right only when that index equals `swaps[i]` or
  the two elements share a key.
  `KeysortScenarios.SwapThenKey` shows this: with keys 5 and 3, after
  `Swap(0, 1)`, position 0 resolves to 5 unprimed and to 3 primed.
- `RetryFailed` (keysort.go:157-163) is documented as retrying the failed
  indices. It clears the errors before `erroredIndexes` reads them, so it
  sends nothing, and the failures are simply forgotten.
- `erroredIndexes` (keysort.go:176-188) ranges over the positions of the
  slice it collected, not its values, so it sends 0..k-1 for k errors.
- A retry could not recompute a key anyway. Every errored index is memoised,
  and `Key` never recomputes a memoised index (`MemoCache.RetryOfErroredIsNoOp`).
- Once any error is recorded, `Less` answers false for every pair until
  the errors are cleared.

## Model

| member | source | states |
|---|---|---|
| `Keysort.KeySortable.constructor` | keysort.go:40-52 | the tracker starts as the identity arrangement (`swaps[i] == i` for every i below Len), memo, errors and the call log start empty, and the adapter invariant holds |
| `Keysort.PrimedKeysort` | keysort.go:57-61 | after building and priming over all indices before any swap, every original index is memoised with the key of the element originally there. Exactly the failed computations are recorded as errors, with their errors. The collection's Key was called exactly once per index, in order 0..n-1 |
| `Keysort.KeySortable.Key` | keysort.go:80-107 | a memoised original index `swaps[i]`: its memo entry is returned, and memo, errors and the call log are unchanged. Otherwise: exactly one call for `swaps[i]`, computing the key of the element currently at position `swaps[i]`, whose value is memoised even on error, with the error recorded or deleted. Nothing memoised or recorded before is lost, and the call log only grows by a call for an index not memoised before. On a primed adapter the result is the key of the element at i |
| `Keysort.KeySortable.Len` | keysort.go:111-113 | the length is the number of original indices and of tracked positions |
| `Keysort.KeySortable.Swap` | keysort.go:117-120 | exchanges the tracked original indices and the wrapped elements at i and j, and nothing else. `swaps` stays a permutation, and the element at every position p is the original element `swaps[p]` |
| `Keysort.KeySortable.Less` | keysort.go:66-76 | resolves the key at i, then the key at j. Answers false whenever any error is recorded, otherwise lessVal on the two memoised keys. An error recorded before the call forces false. The call log only grows, by calls for indices not memoised before. On a primed adapter nothing changes and the answer is lessVal on the keys of the elements currently at i and j |
| `Keysort.KeySortable.Memoize` | keysort.go:124-145 | resolving the positions of an index source one by one equals `ResolveAll` over the original indices at those positions |
| `Keysort.KeySortable.AllIndexes` | keysort.go:167-172 | sends every position 0..Len()-1 in order |
| `Keysort.KeySortable.ErroredIndexes` | keysort.go:176-188 | sends 0..k-1 for k recorded errors (positions in the collected slice, not the errored indices), all of them valid positions |
| `Keysort.KeySortable.ClearErrors` | keysort.go:148-155 | leaves no recorded error; memo and the call log are unchanged |
| `Keysort.KeySortable.RetryFailed` | keysort.go:160-163 | afterwards no error is recorded, memo is unchanged and no call to the collection's Key was made |
| `Keysort.KeySortable.Errors` | keysort.go:192-197 | no error exactly when no error is recorded, otherwise a PrimingError holding the errors recorded at the time of the call |
| `Keysort.RunSort` | keysort_test.go:62-69 | over any sequence of Less and Swap calls, the adapter stays valid and memoised keys and recorded errors are never lost. The answers are those of the Less calls, none for a Swap. If an error was recorded before, every Less answer is false. The call log only grows, and only by calls for indices not memoised before the sort, so every index memoised before keeps its call count: it is never recomputed. On a primed adapter the cache, including the call log, is unchanged: no further key computation |
| `MemoCache.Resolve` | keysort.go:87-106 | after resolving an original index it is memoised |
| `MemoCache.ResolveCallsOnlyWhenMissing` | keysort.go:87-105 | a memoised index resolves to an unchanged cache with no call. Otherwise exactly one call for that index is logged and its computed value is memoised |
| `MemoCache.ResolveKeepsCoherent` | keysort.go:96-104 | one resolution keeps the cache coherent: memoised indices in range, errors only on memoised indices, and the called indices exactly the memoised ones, each once |
| `MemoCache.ResolveAllKeepsCoherent` | keysort.go:134-143 | any sequence of resolutions keeps the cache coherent |
| `MemoCache.ResolveAllExtends` | keysort.go:96-104 | resolutions memoise exactly the requested indices besides those already memoised, and earlier memo entries keep their values |
| `MemoCache.ResolveAllAppendsCalls` | keysort.go:87-92 | the log of calls to the collection's Key is only appended to: earlier calls stay, in order, as a prefix |
| `MemoCache.ResolveAllKeepsErrors` | keysort.go:87-104 | on a coherent cache an error once recorded stays recorded through any further resolutions (only a fresh computation deletes one, and an errored index is already memoised), which is why a failure makes every later `Less` answer false |
| `MemoCache.ResolveAllMemoised` | keysort.go:87 | resolving only memoised indices changes nothing and makes no call |
| `MemoCache.ResolveAllFresh` | keysort.go:87-105 | resolving distinct, unmemoised indices calls the collection's Key once for each, in order: the call log grows by exactly those indices |
| `MemoCache.ResolveKeepsFaithful` | keysort.go:96-104 | one resolution keeps memoised keys and recorded errors equal to what the collection's Key returns on the same elements |
| `MemoCache.ResolveAllKeepsFaithful` | keysort.go:134-143 | any sequence of resolutions on the same elements keeps memoised keys and recorded errors equal to what the collection's Key returns |
| `MemoCache.PrimingFromEmpty` | keysort.go:57-60 | priming an empty cache over 0..n-1 calls Key exactly once per index, in order. Afterwards every index below n and no other is memoised with its element's key, and exactly the failures are recorded |
| `MemoCache.CallsAtMostOnce` | keysort.go:87-92 | in a coherent cache each original index was handed to the collection's Key at most once, and exactly once if and only if it is memoised |
| `MemoCache.CallsBounded` | keysort_test.go:57-59 | in a coherent cache the collection's Key was called at most n times in all |
| `MemoCache.MemoisedNotRecomputed` | keysort.go:87 | when the call log grew only by calls for indices a memo did not hold, every index that memo held has as many calls as before |
| `MemoCache.OnlyFreshCallsCompose` | keysort.go:87-92 | two successive growths of the call log by fresh calls make one, judged against the earlier memo, since the memo only grows |
| `MemoCache.RetryOfErroredIsNoOp` | keysort.go:160-163 | resolving any sequence of errored indices changes nothing: a retry that did send them would still not recompute them |
| `Permutation.RangeIsPermutation` | keysort.go:42-45 | the identity arrangement is a permutation of [0, n) |
| `Permutation.PermutationIsBijection` | keysort.go:26-28 | a permutation of [0, n) has n entries, all below n and pairwise distinct, and contains every index below n |
| `Permutation.SwapKeepsPermutation` | keysort.go:118 | exchanging two entries of a permutation gives a permutation |
| `KeysortScenarios.SwapThenKey` | keysort.go:82-92 | keys 5 and 3, `Swap(0, 1)`, then the key at position 0: 5 when unprimed (the element now at position 1), 3 when primed |
| `KeysortScenarios.FailingIdentity` | keysort.go:160-188 | six elements with keys 13, 11, 9, 12, 8, 10, failing at index 3. Priming makes exactly six calls 0..5 and Errors names index 3 alone. ErroredIndexes sends position 0. After RetryFailed there is no error, index 3 keeps the sentinel 0 and no seventh call is made |

## Left out

- The goroutine worker pool, channel, `sync.WaitGroup` and `runtime.GOMAXPROCS` in `memoize` (keysort.go:124-145) are left out. `Memoize` resolves the indices one after another, so the at-least-once race between two workers is not modelled.
- `parallelism` is left out as well. `PrimedKeysort` and `RetryFailed` take no such parameter, and `Memoize` takes the index source's output as a sequence.
- The embedded `sync.Mutex` and its unlock/relock around the collection's `Key` (keysort.go:83-94) are left out. The model is sequential.
- `PrimingError.Error()` (keysort.go:207-216) is left out. It formats strings with `fmt` and `strings` in Go's unspecified map order.
- Errors (`Keysort.KeySortable.Errors`) returns a copy of the errors map, while Go's `PrimingError{ks.errors}` (keysort.go:196) shares the adapter's map. A `PrimingError` the caller keeps therefore does not see later `ClearErrors` deletions or `Key` writes (keysort.go:100-103, 151-153), as it would in Go. Map aliasing is not modelled.
- Dynamic `interface{}` keys and type assertions are replaced by a type parameter `K` and a predicate `lessVal`.
- The external `sort.Sort` is not modelled as an algorithm. `RunSort` takes any sequence of `Less`/`Swap` calls. That the final order equals a direct sort's is therefore not stated.
- A caller's swaps made directly on the collection, bypassing the adapter, are outside the model. The collection array is changed only by `Swap`.
- Go panics on out-of-range positions. `Key`, `Swap` and `Less` require valid positions instead, as a sort always passes.
- The test helpers in `keysort_test.go` are not modelled: random specimen generation, and `ByIntKeyCounted`, whose `count++` on a value receiver never counts. The ghost call log plays the counter's role.
- `examples/example.go` is not modelled. It is a demo with `time.Sleep`, `fmt` and a global counter, and it calls `keysort.By`/`keysort.PrimedBy`, which `keysort.go` does not define. Only its data are reused in `KeysortScenarios.FailingIdentity`.
