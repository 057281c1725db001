# Periscope result ranker: a Dafny model of its core

The Periscope AI result ranker reorders search results with a small neural
network that learns from what the user picks. This project models the parts
of it that are plain logic and proves properties of them:

- **`IndexedBuffer`** (`lru_buffer.dfy`, module `LruBuffer`). This is the ring
  buffer of result ids with stable slots and a least-recently-used policy.
  It is modelled as the `LRUMap`'s entry sequence, least recently used first,
  of (id, slot) pairs. The module covers `add`, `addAll`, `touch`,
  `contains`, `indexOf`, both constructors, and the order returned by
  `asList`/`evictionOrder`. Both of those walk the map from least to most
  recently used, so they are the same sequence, `Order`. `size` and
  `getLimit` are the entry count and the `limit` field.
- **`NeuralNetworkResultRanker`** (`result_ranker.dfy`, module `ResultRanker`).
  Each slot of the buffer is an output unit of the network. The module covers:
  - `addResults`, and resetting the 100 output-layer weights of a recycled slot
  - the one-hot encodings of the query and the target
  - the control flow of `trainRanking`
  - the ordering done by `outputArrayToResults` and `rank`
  - `loadOrCreateState`, and the constructor that defaults to 10000 output units

  The network is an opaque value. The model keeps only its output-layer
  parameter vector. `fit` and `output` are function parameters.
- **`Debouncer`** (`debouncer.dfy`, module `Debouncing`). This throttles how
  often the network is stored. It is a state machine with two atomic events
  that the debouncer's semaphore serialises: a request, and the firing of the
  armed timer. Clock readings are parameters. The `long` arithmetic is
  written out: nanoseconds, Java's truncating millisecond conversion, and
  wrap-around.
- **Label storage** (`label_storage.dfy`, module `LabelStorage`). This covers
  how `AbstractJcrNetworkStorageStrategy` writes a buffer to the `labels`
  node and reads it back:
  - one string property per slot, named by the slot number
  - stale higher slot names removed
  - the `evictionOrder` and `bufferLimit` properties

  The main result is `StoreThenLoad`: reading back what was stored gives the
  same buffer, whatever order the repository lists the properties in.

Supporting modules:

- `Wrappers`: `Option`/`Result`.
- `JavaArith`: `int`/`long` ranges, wrap-around, and the `TimeUnit`
  conversions.
- `Decimal`: `Integer.toString`/`Integer.parseInt`.
- `Sorting`: a stable insertion sort standing in for `List.sort` and
  `Stream.sorted`. Both are stable in Java.

## Model

Paths are relative to the repository root.

| member | source | states |
|---|---|---|
| LruBuffer.IndexOf | src/main/java/info/magnolia/forge/periscope/rank/ml/IndexedBuffer.java:88-91 | `indexOf` is -1 exactly when the item is absent; otherwise it is the slot paired with the item, and in a valid buffer it is below `size()` |
| LruBuffer.ContainsIsInOrder | src/main/java/info/magnolia/forge/periscope/rank/ml/IndexedBuffer.java:77-79 | `contains(k)` holds exactly when `k` is listed by `asList()` |
| LruBuffer.IndexOfInjective | src/main/java/info/magnolia/forge/periscope/rank/ml/IndexedBuffer.java:88-91 | two items of a valid buffer with the same index are the same item |
| LruBuffer.Add | src/main/java/info/magnolia/forge/periscope/rank/ml/IndexedBuffer.java:59-69 | `add` keeps the map within its limit with unique keys, and reports an evicted index exactly when the buffer was full |
| LruBuffer.AddBelowCapacity | src/main/java/info/magnolia/forge/periscope/rank/ml/IndexedBuffer.java:60-62 | below capacity a new item gets slot `size()` and becomes most recent; the size grows by one; nothing is evicted; every other slot stays |
| LruBuffer.AddAtCapacity | src/main/java/info/magnolia/forge/periscope/rank/ml/IndexedBuffer.java:63-68 | at capacity the least recently used key is removed and its slot goes to the new item and is returned; the size and every other key's slot stay |
| LruBuffer.AddPreservesValid | src/main/java/info/magnolia/forge/periscope/rank/ml/IndexedBuffer.java:59-69 | adding an absent item keeps keys unique, size within the limit, and the slots exactly 0 .. size-1 |
| LruBuffer.TouchMovesToMostRecent | src/main/java/info/magnolia/forge/periscope/rank/ml/IndexedBuffer.java:84-86 | `touch` moves a present key to most recently used without changing any slot; an absent key changes nothing |
| LruBuffer.AddAll | src/main/java/info/magnolia/forge/periscope/rank/ml/IndexedBuffer.java:71-75 | `addAll` keeps the map well formed and the limit unchanged |
| LruBuffer.AddAllFrom | src/main/java/info/magnolia/forge/periscope/rank/ml/IndexedBuffer.java:71-75 | distinct new items that fit are appended in order and get the next slots; existing keys keep theirs |
| LruBuffer.AddAllAssignsSequentialSlots | src/main/java/info/magnolia/forge/periscope/rank/ml/IndexedBuffer.java:71-75 | distinct items added to an empty buffer that has room take slots 0, 1, 2, ... in insertion order |
| LruBuffer.LeastRecentlyUsedExample | src/test/java/info/magnolia/forge/periscope/rank/ml/IndexedBufferTest.java:76-92 | after adding five items, touching "alpha" and "charlie", then adding two more, the untouched "bravo" and "delta" give up slots 1 and 3 |
| LruBuffer.Insert | src/main/java/info/magnolia/forge/periscope/rank/ml/NeuralNetworkResultRanker.java:95-97 | adding only ids not yet contained (the stream's filter) always leaves the id in a valid buffer and is a no-op for a known id |
| LruBuffer.AddPresentBreaksSlots | src/main/java/info/magnolia/forge/periscope/rank/ml/IndexedBuffer.java:59-62 | `add` has no membership check: adding a present key below capacity moves it to slot `size()` without growing the buffer, so the slots are no longer 0 .. size-1 |
| LruBuffer.AddTwiceExample | src/main/java/info/magnolia/forge/periscope/rank/ml/IndexedBuffer.java:59-62 | adding "a" twice to an empty buffer of capacity 2 leaves an invalid buffer |
| LruBuffer.FromSnapshot | src/main/java/info/magnolia/forge/periscope/rank/ml/IndexedBuffer.java:44-52 | the snapshot constructor yields a well-formed map with the given limit; distinct labels that fit get slot i for the i-th label |
| LruBuffer.PutLabelsIndexed | src/main/java/info/magnolia/forge/periscope/rank/ml/IndexedBuffer.java:47-49 | putting distinct labels at their list positions stores them in list order with slots 0 .. n-1 |
| LruBuffer.TouchAllKeepsSlots | src/main/java/info/magnolia/forge/periscope/rank/ml/IndexedBuffer.java:50-51 | touching the eviction order keeps the buffer valid and changes no slot |
| LruBuffer.TouchAllLinesUp | src/main/java/info/magnolia/forge/periscope/rank/ml/IndexedBuffer.java:50-51 | touching distinct present keys in turn makes them the most recent entries, in that order |
| LruBuffer.LabelsBySlot | src/main/java/info/magnolia/forge/periscope/rank/ml/IndexedBuffer.java:88-91 | listing a valid buffer's labels by slot gives distinct labels, the s-th one having index s |
| LruBuffer.SnapshotRoundTrip | src/main/java/info/magnolia/forge/periscope/rank/ml/IndexedBuffer.java:44-52 | rebuilding from (limit, labels by slot, `evictionOrder()`) gives back the same buffer |
| Sorting.SortBy | src/main/java/info/magnolia/forge/periscope/rank/ml/NeuralNetworkResultRanker.java:143-148 | the sort gives a permutation ordered by key, and stable: the items of each key keep their relative order |
| ResultRanker.ZeroRange | src/main/java/info/magnolia/forge/periscope/rank/ml/NeuralNetworkResultRanker.java:107-108 | the parameters in [lo, hi) become 0 and all others stay |
| ResultRanker.ResetForOutputUnit | src/main/java/info/magnolia/forge/periscope/rank/ml/NeuralNetworkResultRanker.java:105-110 | the 100 weights feeding the unit become zero and every other parameter stays |
| ResultRanker.ResetKeepsOtherBlocks | src/main/java/info/magnolia/forge/periscope/rank/ml/NeuralNetworkResultRanker.java:105-110 | resetting one unit leaves the weight block of every other unit unchanged |
| ResultRanker.EvictedIsLeastRecent | src/main/java/info/magnolia/forge/periscope/rank/ml/NeuralNetworkResultRanker.java:96-99 | at capacity, the index `add` drops is the unit of the least recently used label |
| ResultRanker.AddResultBelowCapacity | src/main/java/info/magnolia/forge/periscope/rank/ml/NeuralNetworkResultRanker.java:96-99 | below capacity a new id takes unit `size()` and every known label keeps its unit |
| ResultRanker.AddResultAtCapacity | src/main/java/info/magnolia/forge/periscope/rank/ml/NeuralNetworkResultRanker.java:96-99 | at capacity the new id takes the evicted label's unit, that unit's weights are reset, and every other label keeps its unit and weights |
| ResultRanker.AddResult | src/main/java/info/magnolia/forge/periscope/rank/ml/NeuralNetworkResultRanker.java:93-99 | one stream element: a known id changes nothing; a new id is added and a dropped unit is reset; the ranker invariant holds throughout |
| ResultRanker.AddResults | src/main/java/info/magnolia/forge/periscope/rank/ml/NeuralNetworkResultRanker.java:92-100 | `addResults` keeps the buffer valid, with capacity equal to the number of output units |
| ResultRanker.AddResultsAppend | src/main/java/info/magnolia/forge/periscope/rank/ml/NeuralNetworkResultRanker.java:92-100 | adding two batches in turn is adding their concatenation |
| ResultRanker.AddResultsKnownIsNoOp | src/main/java/info/magnolia/forge/periscope/rank/ml/NeuralNetworkResultRanker.java:95 | results whose ids are all known leave the ranker unchanged |
| ResultRanker.AddResultsRepeatedId | src/main/java/info/magnolia/forge/periscope/rank/ml/NeuralNetworkResultRanker.java:92-100 | an id repeated right after itself in a batch is inserted once: the result texts stay unique |
| ResultRanker.AddResultsRepeatContained | src/main/java/info/magnolia/forge/periscope/rank/ml/NeuralNetworkResultRanker.java:93-99 | a later occurrence of an id that is still in the buffer when its turn comes changes nothing |
| ResultRanker.AddResultsRepeatAfterEviction | src/main/java/info/magnolia/forge/periscope/rank/ml/NeuralNetworkResultRanker.java:93-99 | a repeat of an id evicted in between is inserted again: with one output unit the batch x, y, x ends holding x and not y |
| ResultRanker.OneSlotReplace | src/main/java/info/magnolia/forge/periscope/rank/ml/NeuralNetworkResultRanker.java:95-98 | with one output unit, adding a new id evicts the id held |
| ResultRanker.AddResultsKeepsOthers | src/main/java/info/magnolia/forge/periscope/rank/ml/NeuralNetworkResultRanker.java:92-100 | a label not among the added ids is either evicted or keeps its unit and its weights |
| ResultRanker.AddResultsRecycledSlotsStartAtZero | src/main/java/info/magnolia/forge/periscope/rank/ml/NeuralNetworkResultRanker.java:92-110 | every new label placed on a unit that was held when the batch started begins from all-zero weights |
| ResultRanker.AddResultsBelowCapacity | src/main/java/info/magnolia/forge/periscope/rank/ml/NeuralNetworkResultRanker.java:92-100 | while there is room for every id, no weight changes, known labels keep their units, and every id ends up in the buffer |
| ResultRanker.EncodeDigits | src/main/java/info/magnolia/forge/periscope/rank/ml/NeuralNetworkResultRanker.java:168-175 | after i rounds of the loop, exactly the channels of the first i characters are set |
| ResultRanker.InputToArray | src/main/java/info/magnolia/forge/periscope/rank/ml/NeuralNetworkResultRanker.java:164-177 | 2560 channels; channel 128*i + c is 1 exactly when character i (i < 20) has code c modulo 128 |
| ResultRanker.InputIgnoresTail | src/main/java/info/magnolia/forge/periscope/rank/ml/NeuralNetworkResultRanker.java:168-171 | characters after the twentieth do not change the encoding |
| ResultRanker.InputOneHotPerDigit | src/main/java/info/magnolia/forge/periscope/rank/ml/NeuralNetworkResultRanker.java:173-174 | at most one channel is set per character position |
| ResultRanker.OutputToArray | src/main/java/info/magnolia/forge/periscope/rank/ml/NeuralNetworkResultRanker.java:179-191 | one entry per output unit: one-hot at the id's slot, all zero for an unknown id |
| ResultRanker.TrainRanking | src/main/java/info/magnolia/forge/periscope/rank/ml/NeuralNetworkResultRanker.java:119-127 | a failing fit changes and persists nothing; otherwise the fitted network is kept, the id becomes most recent with every slot unchanged, and the new state is persisted; when `fit` keeps the output layer's size, the ranker invariant and the number of output units are kept |
| ResultRanker.TrainUnknownFitsZeroTarget | src/main/java/info/magnolia/forge/periscope/rank/ml/NeuralNetworkResultRanker.java:179-191 | an id the buffer does not hold is still fitted, to an all-zero target |
| ResultRanker.IndexIn | src/main/java/info/magnolia/forge/periscope/rank/ml/NeuralNetworkResultRanker.java:145 | `List.indexOf`: the first position of the id, or -1 exactly when absent |
| ResultRanker.OutputArrayToResults | src/main/java/info/magnolia/forge/periscope/rank/ml/NeuralNetworkResultRanker.java:193-197 | the buffer's labels, each once, by descending score; equal scores keep least-recently-used order |
| ResultRanker.SortedCandidates | src/main/java/info/magnolia/forge/periscope/rank/ml/NeuralNetworkResultRanker.java:143-148 | ordering by the key puts known candidates in network order, and unknown ones last when the fallback exceeds every known index |
| ResultRanker.Rank | src/main/java/info/magnolia/forge/periscope/rank/ml/NeuralNetworkResultRanker.java:139-150 | `rank` as written: a stable permutation with known candidates in network order; unknown candidates are last when every known index is below the number of candidates; otherwise an unknown one can come first (`RankPutsUnknownFirstExample`) |
| ResultRanker.RankPutsUnknownFirstExample | src/main/java/info/magnolia/forge/periscope/rank/ml/NeuralNetworkResultRanker.java:143-148 | with ranked ids [a, b, c] and candidates [u, c], `rank` returns [u, c], so the unknown candidate comes first |
| ResultRanker.RankCorrected | src/main/java/info/magnolia/forge/periscope/rank/ml/NeuralNetworkResultRanker.java:143-148 | with the intended fallback key, unknown candidates always come after known ones, which stay in network order |
| ResultRanker.RankedLabels | src/main/java/info/magnolia/forge/periscope/rank/ml/NeuralNetworkResultRanker.java:193-197 | the ranked labels are exactly the buffer's labels, and an earlier one never scores lower |
| ResultRanker.RankedByScore | src/main/java/info/magnolia/forge/periscope/rank/ml/NeuralNetworkResultRanker.java:139-150 | candidates ordered by the ranked labels come by non-increasing score |
| ResultRanker.RankedUnknownsLast | src/main/java/info/magnolia/forge/periscope/rank/ml/NeuralNetworkResultRanker.java:139-150 | a candidate unknown to the ranked labels is unknown to the buffer, so unknown ones stay last |
| ResultRanker.ScoreIsOutput | src/main/java/info/magnolia/forge/periscope/rank/ml/NeuralNetworkResultRanker.java:193-197 | with one score per output unit, a held label's score is the network output at its slot, never the default |
| ResultRanker.RankUnknownsLastWhenEnough | src/main/java/info/magnolia/forge/periscope/rank/ml/NeuralNetworkResultRanker.java:143-148 | as written, unknown candidates come last whenever there are at least as many candidates as labels |
| ResultRanker.RankResults | src/main/java/info/magnolia/forge/periscope/rank/ml/NeuralNetworkResultRanker.java:139-150 | `rank` end to end as written: a permutation of the candidates with known ones by descending network score; unknown ones last when there are at least as many candidates as labels |
| ResultRanker.RankResultsCorrected | src/main/java/info/magnolia/forge/periscope/rank/ml/NeuralNetworkResultRanker.java:139-150 | corrected `rank` end to end: a permutation of the candidates, known ones by descending network score, unknown ones always last |
| ResultRanker.LoadOrCreateState | src/main/java/info/magnolia/forge/periscope/rank/ml/NeuralNetworkResultRanker.java:199-209 | the stored state is kept exactly when its buffer limit equals the output units; otherwise a new network with an empty buffer of that capacity, which fails below 1 |
| ResultRanker.NewRanker | src/main/java/info/magnolia/forge/periscope/rank/ml/NeuralNetworkResultRanker.java:71-86 | with no configured value the ranker has 10000 output units; its buffer capacity always equals its output units |
| JavaArith.WrapInt | src/main/java/info/magnolia/forge/periscope/rank/ml/jcr/AbstractJcrNetworkStorageStrategy.java:132 | the `(int)` cast lands in the int range, is congruent modulo 2^32, and is the identity on ints |
| JavaArith.WrapLong | src/main/java/info/magnolia/forge/periscope/rank/ml/Debouncer.java:82 | `long` subtraction lands in range, is congruent modulo 2^64, and is exact when it does not overflow |
| JavaArith.NanosToMillis | src/main/java/info/magnolia/forge/periscope/rank/ml/Debouncer.java:82 | nanoseconds to milliseconds truncates toward zero |
| JavaArith.MillisToNanos | src/main/java/info/magnolia/forge/periscope/rank/ml/Debouncer.java:48 | milliseconds to nanoseconds is the exact product when it fits a `long` and saturates otherwise |
| Decimal.NatToString | src/main/java/info/magnolia/forge/periscope/rank/ml/jcr/AbstractJcrNetworkStorageStrategy.java:172 | `Integer.toString` of a natural: digits only, no leading zero, with the right value |
| Decimal.ParseInt | src/main/java/info/magnolia/forge/periscope/rank/ml/jcr/AbstractJcrNetworkStorageStrategy.java:111 | a parsed value fits an int, and parsing succeeds only on text that starts with a sign or a digit |
| Decimal.ParseIntSpec | src/main/java/info/magnolia/forge/periscope/rank/ml/jcr/AbstractJcrNetworkStorageStrategy.java:111 | `Integer.parseInt` succeeds exactly on an optional sign followed by one or more ASCII digits whose signed value fits an int, and returns that signed value |
| Decimal.ParseIntExamples | src/main/java/info/magnolia/forge/periscope/rank/ml/jcr/AbstractJcrNetworkStorageStrategy.java:111 | "1x" and a lone "-" are rejected, and "+7" parses to 7 |
| Decimal.ParseIntToString | src/main/java/info/magnolia/forge/periscope/rank/ml/jcr/AbstractJcrNetworkStorageStrategy.java:172 | parsing `Integer.toString(i)` gives back i |
| Decimal.IntToStringInjective | src/main/java/info/magnolia/forge/periscope/rank/ml/jcr/AbstractJcrNetworkStorageStrategy.java:172 | distinct ints get distinct property names |
| LabelStorage.SlotName | src/main/java/info/magnolia/forge/periscope/rank/ml/jcr/AbstractJcrNetworkStorageStrategy.java:172 | a label is stored under the decimal name of its slot, below the buffer size |
| LabelStorage.WriteLabels | src/main/java/info/magnolia/forge/periscope/rank/ml/jcr/AbstractJcrNetworkStorageStrategy.java:171-173 | every label ends up under its slot name; only slot names are added or changed |
| LabelStorage.DropStale | src/main/java/info/magnolia/forge/periscope/rank/ml/jcr/AbstractJcrNetworkStorageStrategy.java:174-177 | only decimal names from `size()` up are removed; on contiguous names, no canonical name from `size()` up is left |
| LabelStorage.StoredSlot | src/main/java/info/magnolia/forge/periscope/rank/ml/jcr/AbstractJcrNetworkStorageStrategy.java:171-177 | after storing, property "s" holds the label in slot s |
| LabelStorage.StoredPropsFacts | src/main/java/info/magnolia/forge/periscope/rank/ml/jcr/AbstractJcrNetworkStorageStrategy.java:168-177 | the stored properties hold every slot's label, add nothing but slot names, and keep every non-decimal property |
| LabelStorage.Serialise | src/main/java/info/magnolia/forge/periscope/rank/ml/jcr/AbstractJcrNetworkStorageStrategy.java:168-182 | `storeToJcr` on the labels node: the slot properties, the eviction order, the limit; other properties kept |
| LabelStorage.SerialiseShaped | src/main/java/info/magnolia/forge/periscope/rank/ml/jcr/AbstractJcrNetworkStorageStrategy.java:171-177 | on a node in shape, storing leaves numeric names exactly the slot names below the size, so no stale label survives |
| LabelStorage.NumericNames | src/main/java/info/magnolia/forge/periscope/rank/ml/jcr/AbstractJcrNetworkStorageStrategy.java:108-117 | the filter keeps exactly the names `Integer.parseInt` accepts |
| LabelStorage.NumericNamesAppend | src/main/java/info/magnolia/forge/periscope/rank/ml/jcr/AbstractJcrNetworkStorageStrategy.java:108-117 | the filter keeps the enumeration order: filtering a concatenation concatenates the filtered parts |
| LabelStorage.NumericNamesSingle | src/main/java/info/magnolia/forge/periscope/rank/ml/jcr/AbstractJcrNetworkStorageStrategy.java:109-116 | a single name is kept exactly when `Integer.parseInt` accepts it |
| LabelStorage.SortedNames | src/main/java/info/magnolia/forge/periscope/rank/ml/jcr/AbstractJcrNetworkStorageStrategy.java:118-127 | the numeric names, each once, ordered by their number; names of equal value keep their enumeration order |
| LabelStorage.ParsedLabels | src/main/java/info/magnolia/forge/periscope/rank/ml/jcr/AbstractJcrNetworkStorageStrategy.java:108-127 | the labels are the values of the numeric properties in the order of their numbers |
| LabelStorage.Parse | src/main/java/info/magnolia/forge/periscope/rank/ml/jcr/AbstractJcrNetworkStorageStrategy.java:100-135 | `getLabels` fails exactly when `bufferLimit` is missing or narrows below 1; otherwise its limit is the narrowed value, and distinct labels that fit get slot i in number order |
| LabelStorage.StoredNamesSorted | src/main/java/info/magnolia/forge/periscope/rank/ml/jcr/AbstractJcrNetworkStorageStrategy.java:118-127 | the sorted numeric names of a stored node are "0", "1", ..., size-1 |
| LabelStorage.StoredLabels | src/main/java/info/magnolia/forge/periscope/rank/ml/jcr/AbstractJcrNetworkStorageStrategy.java:108-127 | the labels read from a stored node are the buffer's labels by slot |
| LabelStorage.StoreThenLoad | src/main/java/info/magnolia/forge/periscope/rank/ml/jcr/AbstractJcrNetworkStorageStrategy.java:100-182 | reading back a stored buffer gives the same buffer (labels, slots, eviction order, limit), whatever order the properties are listed in |
| LabelStorage.NumericOrderExample | src/test/java/info/magnolia/forge/periscope/rank/ml/jcr/JcrNetworkStorageStrategyTest.java:117-130 | property "10" sorts after "9", and "evictionOrder" is dropped |
| LabelStorage.NumericNamesSkip | src/main/java/info/magnolia/forge/periscope/rank/ml/jcr/AbstractJcrNetworkStorageStrategy.java:108-117 | the filter drops a non-numeric name wherever it stands in the listing, so the numeric names are unchanged |
| LabelStorage.ParseIgnoresOtherProperties | src/main/java/info/magnolia/forge/periscope/rank/ml/jcr/AbstractJcrNetworkStorageStrategy.java:108-117 | a property whose name is not a number does not change what is read back |
| LabelStorage.MissingEvictionOrder | src/main/java/info/magnolia/forge/periscope/rank/ml/jcr/AbstractJcrNetworkStorageStrategy.java:129-131 | without an `evictionOrder` property the recency order is the slot order |
| Debouncing.Create | src/main/java/info/magnolia/forge/periscope/rank/ml/Debouncer.java:46-49 | the interval is kept in nanoseconds, a million times the milliseconds when that fits a `long` |
| Debouncing.Complete | src/main/java/info/magnolia/forge/periscope/rank/ml/Debouncer.java:75 | completing a promise records a value only the first time |
| Debouncing.Request | src/main/java/info/magnolia/forge/periscope/rank/ml/Debouncer.java:65-93 | a superseded pending promise completes with false; the new request is pending; if idle it runs at once when the wait truncates to 0 or less, otherwise one timer is armed for the wait |
| Debouncing.Fire | src/main/java/info/magnolia/forge/periscope/rank/ml/Debouncer.java:95-120 | the timer runs the latest pending operation, completes its promise with true, records the finish time and disarms |
| Debouncing.MillisToWaitPositive | src/main/java/info/magnolia/forge/periscope/rank/ml/Debouncer.java:82-83 | without overflow, a timer is armed exactly when at most the interval minus 1 ms has passed |
| Debouncing.RequestKeepsCompletions | src/main/java/info/magnolia/forge/periscope/rank/ml/Debouncer.java:73-79 | a request never changes an already completed promise |
| Debouncing.FireKeepsCompletions | src/main/java/info/magnolia/forge/periscope/rank/ml/Debouncer.java:111-120 | firing never changes an already completed promise |
| Debouncing.IdleMeansSettled | src/main/java/info/magnolia/forge/periscope/rank/ml/Debouncer.java:73-92 | with no timer armed, every request so far has its promise completed |
| Debouncing.RequestSpacing | src/main/java/info/magnolia/forge/periscope/rank/ml/Debouncer.java:81-89 | without overflow, an execution starts more than the interval minus 1 ms after the last one finished |
| Debouncing.FireSpacing | src/main/java/info/magnolia/forge/periscope/rank/ml/Debouncer.java:95-101 | a timer never fires earlier than the interval minus 1 ms after the last execution finished |
| Debouncing.SkipIntermediateExample | src/test/java/info/magnolia/forge/periscope/rank/ml/DebouncerTest.java:55-77 | three quick requests with a 50 ms interval: the first runs, the second completes with false, the third runs when the timer fires |

## Left out

- The neural network numerics are not modelled: network creation, `fit`, `output` and the model serialiser of the DL4J library. The network is an opaque value apart from its output-layer parameters. `fit` and `output` are function parameters, and scores are integers rather than floats.
- The id of a result (Jsoup's parsing of the title) and `StringUtils.stripAccents` are foreign text functions. They are parameters (`idOf`, `Foreign.stripAccents`).
- Characters outside the Basic Multilingual Plane are not modelled. Java's `charAt` sees UTF-16 code units, while a Dafny `char` is a whole character.
- Decimal.ParseInt: only ASCII digits are modelled. `Integer.parseInt` also accepts digits of other scripts.
- LabelStorage.SortedNames: sorts by the true numeric value. The comparator `keyA - keyB` overflows for numbers more than 2^31 apart, which only names the serialiser never writes (large negative numbers) can trigger.
- LabelStorage.DropStale: its counter is an unbounded integer. Java's `int` counter would wrap after 2^31 slot names, so the model may remove a decimal name above `Integer.MAX_VALUE` where Java would go on with negative names.
- JCR sessions, node lookup and creation, the piped-stream writer thread, and the per-user and per-role path strategies are input/output and are not modelled. The labels are read through a `HashMap` of the node's properties (src/main/java/info/magnolia/forge/periscope/rank/ml/jcr/AbstractJcrNetworkStorageStrategy.java:102-108), so their order is the map's iteration order; the model takes that order as a parameter, and every lemma holds for any order.
- The user carried by `RankingInfo` is left out. `RankingInfo` in Java shares the live network and buffer; the model hands over values.
- Threads, the semaphores, the executor, `Thread.sleep` and `System.nanoTime` are not modelled. Serialised atomic events carrying the clock readings stand in for them. The `InterruptedException` branches are left out.
- A throwing operation is not modelled: the missing `finally` in `execute` would leave the semaphore held and the promise pending.
- Debouncing.RequestSpacing: spacing is proved only when the clock arithmetic does not overflow a `long`. The bound is the interval minus 1 ms because the wait is truncated to whole milliseconds.
- ResultRanker.TrainRanking: a `fit` that throws part-way through is treated as changing nothing. The invariant is kept only for a `fit` that preserves the output layer's size (`FitKeepsShape`), which training weights in place does.
- ResultRanker.Score: defaults to 0 for a label without an output entry, where Java's `getDouble` would throw. `RankResults` requires one score per output unit, under which the default is never used (`ScoreIsOutput`).

## Findings

| source | as written | input that shows it | evidently intended | confidence | as-written member | corrected member |
|---|---|---|---|---|---|---|
| src/main/java/info/magnolia/forge/periscope/rank/ml/NeuralNetworkResultRanker.java:143-148 | a candidate whose id the network does not know gets sort key `results.size()` | ranked ids [a, b, c] and candidates [u, c]: c gets key 2 and u gets key 2, so the stable sort keeps [u, c] and the unknown u comes first | unknown candidates sort after every known one, as the comment on line 146 says; key `sortedIds.size()` does that | not executed | ResultRanker.Rank, ResultRanker.RankResults, ResultRanker.RankPutsUnknownFirstExample | ResultRanker.RankCorrected, ResultRanker.RankResultsCorrected |
