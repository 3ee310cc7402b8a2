# Batching generator of es-async-utils, in Dafny

This project models `bulks(size, gen, filter_cb, map_cb)` from `index.js`. It is
the batching async generator of the library. It reads every item of `gen` and
skips the items `filter_cb` rejects. It passes each remaining item through
`map_cb` and pushes the result onto a working array (the "bulk"). When the bulk
has reached `size` items, it yields the bulk and starts a new one. At the end it
yields the leftover bulk, but only if it is not empty. A missing `filter_cb`
accepts everything, and a missing `map_cb` is the identity.

Files:

- `sequences.dfy` (module `Sequences`): the reference functions `Filter`, `Map`
  and `Flatten`, with lemmas relating them to concatenation.
- `bulks.dfy` (module `Batching`): the callback defaults (`KeepOf`, `MapOf`), the
  effective width (`Width`), the reference cutting function `Chunk`, the
  specification `Batches(size, gen, keep, f) = Chunk(Map(Filter(gen, keep), f), Width(size))`,
  and the imperative method `Bulks`. `Bulks` keeps the source's loop, its
  working `bulk` and its flush test `|bulk| >= size`, and is proved equal to
  `Batches`. The lemmas state what the output is: its flattening, its shape,
  its length, its last bulk, and the singleton behaviour for small sizes.
  `Flushed` and the lemmas beside it state what the consumer has received
  part-way through: after reading `gen[..i]`, the bulks yielded so far are
  the full bulks of `Batches(size, gen[..i], keep, f)`. This is also a loop
  invariant of `Bulks`.

Modelling choices:

- The async input generator is a finite `seq<T>`. The yielded bulks are
  collected, in order, into one `seq<seq<T>>`.
- The callbacks are total Dafny functions, passed as `Option`s. `None` stands
  for a missing callback (index.js:70-71). The item type is declared `T(!new)`:
  items are values that hold no references to the heap.
- JavaScript values are untyped. Since a missing `map_cb` is the identity, the
  method uses one item type `T` for both input and output. The reference
  functions and lemmas are generic in an input type `T` and an output type `U`.
- `size` is an `int`. The test `bulk.length >= size` holds after every push when
  `size <= 1`, so any such size acts like 1. `Width(size)` is the length at which
  a bulk is flushed.

## Model

| member | source | states |
|---|---|---|
| `Batching.Bulks` | index.js:69-85 | The bulks the loop yields, in order, are exactly `Batches(size, gen, keep, f)`: the kept, mapped items cut into bulks of `Width(size)`, with the defaults for missing callbacks applied. Its loop invariant also states that after reading `gen[..i]` the bulks yielded so far are `Flushed(Batches(size, gen[..i], keep, f), Width(size))` |
| `Batching.RejectKeepsProgress` | index.js:73-74 | Skipping an item the filter rejects keeps the loop's state for one more item read: the yielded bulks are all full, the working bulk is not full, together they hold the kept, mapped items read so far, and the yielded bulks are the flushed bulks of the output so far |
| `Batching.PushKeepsProgress` | index.js:73-79 | Pushing `map_cb` of an accepted item, and yielding the bulk when its length reaches `size`, keeps that same state for one more item read |
| `Batching.FlushKeepsProgress` | index.js:76-79 | Yielding a working bulk that has just reached `size` items and starting an empty one keeps the yielded bulks full and their items unchanged |
| `Batching.ProgressIsChunk` | index.js:72-84 | From the loop's state, the yielded bulks plus the non-empty working bulk are the cut of the items read so far, and the yielded bulks alone are its flushed bulks |
| `Batching.ProgressFlushed` | index.js:72-80 | After reading `gen[..i]`, the bulks yielded so far are exactly the full bulks of `Batches(size, gen[..i], keep, f)`; only a last bulk shorter than `size` is still held back |
| `Batching.FinishIsChunk` | index.js:81-84 | Appending the leftover bulk only when it is non-empty turns the loop's final state into the full output `Batches(size, gen, keep, f)` |
| `Sequences.MapFilterStep` | index.js:73-75 | Reading one more input item adds `map_cb` of it to the kept items exactly when `filter_cb` accepts it, and adds nothing otherwise |
| `Sequences.Filter` | index.js:74 | Every item in the result is an input item the filter accepts; every accepted input item is in the result; the result is no longer than the input |
| `Sequences.Map` | index.js:75 | The map callback is applied once to each item, position by position, and the length is unchanged |
| `Sequences.FilterConcat` | index.js:73-74 | Filtering keeps input order: filtering a concatenation is the concatenation of the filtered parts |
| `Sequences.FilterSkipsRejected` | index.js:74 | An item the filter rejects, inserted anywhere, does not change the kept items |
| `Sequences.FilterAll` | index.js:70 | A filter that accepts every item keeps the whole input |
| `Batching.KeepOf` | index.js:70 | A given `filter_cb` is used as it is; a missing one accepts every item |
| `Batching.MapOf` | index.js:71 | A given `map_cb` is used as it is; a missing one returns every item unchanged |
| `Batching.Width` | index.js:76 | The length at which a bulk is flushed is at least 1, and it is `size` itself whenever `size >= 1` |
| `Batching.ChunkShape` | index.js:75-84 | Cutting gives back the input when flattened; every bulk is non-empty and holds at most `n` items; every bulk but the last holds exactly `n` |
| `Batching.Batches` | index.js:69-85 | The output, concatenated, is `map_cb` applied to the items `filter_cb` keeps, in input order; no bulk is empty or longer than `Width(size)`, and every bulk but the last has exactly `Width(size)` items |
| `Batching.ChunkUnique` | index.js:75-84 | Any list of bulks that flattens to `s`, has no empty bulk and has every bulk but the last full is equal to `Chunk(s, n)` |
| `Batching.ChunkCount` | index.js:76-84 | The number of bulks is the ceiling of `|s| / n`, so zero for an empty sequence |
| `Batching.ChunkLast` | index.js:81-84 | The last bulk holds `|s| % n` items when that is non-zero and `n` items otherwise |
| `Batching.ChunkSingletons` | index.js:76 | With width 1, bulk `i` is the one-item list of item `i` |
| `Batching.ChunkConcat` | index.js:76-79 | When the first part fills whole bulks, the bulks of a concatenation are the bulks of the first part followed by those of the second |
| `Batching.BatchesShape` | index.js:75-84 | When `size >= 1`, no yielded bulk is empty, none holds more than `size` items, and every bulk before the last holds exactly `size` |
| `Batching.BatchesCount` | index.js:76-84 | When `size >= 1`, the number of bulks is `ceil(k / size)` for `k` kept items, and it is zero exactly when no item is kept |
| `Batching.BatchesTrailing` | index.js:81-84 | When some item is kept, the last bulk holds `k % size` items, which is fewer than `size`, unless `size` divides `k`; then it holds `size` items |
| `Batching.BatchesSingletons` | index.js:76 | When `size <= 1`, there is one bulk per kept item, and bulk `i` is `[map_cb(kept[i])]` |
| `Batching.BatchesIgnoreRejected` | index.js:74 | Inserting an item the filter rejects anywhere in the input leaves the output unchanged |
| `Batching.BatchesMapOnlyKept` | index.js:74-75 | `map_cb` is consulted only on kept items: two map callbacks that agree on the kept input items give the same output |
| `Batching.BatchesDefaults` | index.js:70-71 | With neither callback, the bulks concatenated give back the input itself |
| `Batching.BatchesConcat` | index.js:72-80 | When the kept items of a prefix fill whole bulks, the output for the whole input is the output for the prefix followed by the output for the rest |
| `Batching.Flushed` | index.js:76-79 | The bulks already yielded are a prefix of the cut that lacks at most its last bulk, and a last bulk is kept only when it is full |
| `Batching.ChunkFlushed` | index.js:76-80 | The flushed bulks of a cut are the cut of the longest prefix whose length is a multiple of `n` |
| `Batching.ChunkFlushedPrefix` | index.js:76-79 | A yielded bulk is never taken back: the flushed bulks of the cut of `s` begin the cut of every extension of `s` |
| `Batching.BatchesStopped` | index.js:72-80 | If the generator stops after reading `gen[..i]`, the bulks the consumer has received begin the output for the whole input, and together they hold the kept, mapped items read so far minus the fewer than `size` items of the working bulk |

## Left out

- `chain_generators` (index.js:5-48) is not modelled. It merges concurrently running async generators through a promise that is replaced on every tick, so it has no sequential behaviour to state. Its drain loop uses `items.pop()`, so it hands out buffered items newest first, not in arrival order.
- `sleep` (index.js:55-58) is not modelled. It only wraps the host timer.
- The declarations in index.d.ts are not modelled. The semaphore, lock, event and channel classes it declares have no bodies in index.js.
- Laziness and asynchrony of `bulks` are not modelled. The input is a finite sequence, and the output is the complete list of yielded bulks, not an interleaving with other tasks. Infinite generators are not covered.
- Aliasing of the yielded arrays is not modelled. The source gives each yielded array to the consumer and then starts a fresh `[]`, so no array is shared. The model yields values.
- JavaScript truthiness is not modelled. The result of `filter_cb` is a `bool`, and a callback's presence is an `Option`.
- Non-integer and `NaN` values of `size` are not modelled; `size` is an `int`.
- There is no `try`/`finally` around the loop (index.js:73-80). If `filter_cb` or `map_cb` throws, or the input generator rejects, the working bulk of up to `size - 1` mapped items is dropped without being yielded, and the exception reaches the consumer. The model has no exceptions; `BatchesStopped` states what the consumer has received at that point.
- The callbacks are pure, total functions. A stateful callback (for example a `filter_cb` that drops duplicates) and the order of calls per item, `filter_cb` first and then `map_cb` only on accepted items, are not captured. `BatchesMapOnlyKept` states only that the output depends on `map_cb` at kept items alone.
- `Batching.Bulks`: uses one item type for input and output, because the default `map_cb` is the identity. The reference functions and the `Batches*` lemmas allow a `map_cb` that changes the type.
