# Distributed random forest: the deterministic rules of `DRF`

This project models, in Dafny, the sequential rules inside H2O's distributed
random-forest driver (`hex.speedrf.DRF`): how many of the requested trees each
node builds, the memory admission check for non-local data, the validation of the
run parameters, the default number of split features, the per-node slot update
applied to the shared model record, and the rows-per-chunk table. The fork/join
orchestration around them is not modelled.

Modules, one per component:

- `Cluster` (`cluster.dfy`): node ids (an `int` with its natural order standing for
  the order `Arrays.sort` puts nodes in), chunks `(home, rows, byteSize)` of the
  frame's column, heartbeats `(maxMem, totMem, freeMem)`, and the locality set.
- `Apportion` (`apportion.dfy`): `howManyTrees`. `HowManyTrees` runs the `HashSet`
  loop with its early stop (`CollectOwners`), sorts the set (`SortedNodes`),
  looks up the calling node with `Arrays.binarySearch` (`BinarySearch`, the JDK's
  bisection) and derives the share; `Share` is the same rule as a function, about
  which the lemmas speak.
- `Admission` (`admission.dfy`): `canLoadAll` as a method with both of its loops,
  `ChunkAllocInfo` as `AllocInfo`, `OVERHEAD_MAGIC` as 3/8.
- `Params` (`params.dfy`): `DRFParams` (the record `DRFParams.create` fills in field
  by field is the datatype constructor `Params.DRFParams`) and
  `howManySplitFeatures`.
- `Validation` (`validation.dfy`): `validateInputData`, returning the first failing
  guard or `Pass`.
- `ModelStore` (`model_store.dfy`): the mutator of `updateRFModel` on an optional
  record, and what a series of such updates from distinct nodes leaves behind.
- `RowsPerChunk` (`rows_per_chunk.dfy`): `howManyRPC` filling an array.
- `JavaInt` (`java_int.dfy`) and `Wrappers` (`wrappers.dfy`): Java's truncating
  division, int saturation and wrap-around; `Option` and `Outcome`.

In these places the code behaves otherwise than its comments and the intent of
even division suggest; the model follows the code:

- A node that is home to no chunk gets `ntrees / n + 1` trees, not 0: the binary
  search returns a negative value for it, which, for a non-negative tree count, is
  always below the remainder (`Apportion.NonOwnerGetsExtraTree`).
- The bytes needed from other nodes are computed once, from the chunks homed on the
  calling node, and compared against every node's usable memory; they are not a
  per-node figure. They are the whole frame's size (`fr.byteSize()`) minus the local
  bytes of ONE column's chunks (those of `fr.anyVec()`); the model keeps the two
  apart as the `frameBytes` input and the chunk list.
- The sampling rate is a Java `float` (`Params.Float`, with a NaN case). Both
  comparisons of the rate guard are false for NaN, so a NaN rate passes validation
  (`Validation.NaNRatePassesGuard`).
- Validation does not keep the default split-feature count in range: a frame holding
  only the response column passes with `numSplitFeatures == -1`, and the default is
  then 0 (`Validation.OneColumnDefaultOutOfRange`).

## Model

| member | source | states |
|---|---|---|
| `Cluster.OwnerSet` | src/main/java/hex/speedrf/DRF.java:242-247 | the locality set holds exactly the homes of the chunks, and is non-empty when there is a chunk |
| `Apportion.CollectOwners` | src/main/java/hex/speedrf/DRF.java:242-247 | the loop with its early `break` once the set is as large as the cluster yields exactly the set of chunk homes, when every home is a cluster node |
| `Apportion.SortedNodes` | src/main/java/hex/speedrf/DRF.java:249-250 | the sorted array is strictly increasing, as long as the set, and holds exactly its elements |
| `Apportion.SortedUnique` | src/main/java/hex/speedrf/DRF.java:249-250 | two strictly sorted sequences with the same elements are equal, so the sorted locality set does not depend on the set's iteration order |
| `Apportion.Bisect` | src/main/java/hex/speedrf/DRF.java:254 | the bisection returns an index holding the key, or a negative value `-(p + 1)` when the key is absent, where `p` is the number of elements below the key |
| `Apportion.BinarySearch` | src/main/java/hex/speedrf/DRF.java:254 | the result is non-negative exactly when the key occurs, and then indexes it |
| `Apportion.ShareByRank` | src/main/java/hex/speedrf/DRF.java:253-255 | the node at sorted rank `k` gets `ntrees / n`, plus one when `k` is below `ntrees - (ntrees / n) * n` |
| `Apportion.RankTotalIs` | src/main/java/hex/speedrf/DRF.java:251-255 | the first `k` ranks together get `base * k` plus one for each rank below the remainder |
| `Apportion.SharesSumToNTrees` | src/main/java/hex/speedrf/DRF.java:249-256 | for `ntrees >= 0`, the shares summed over the sorted locality set are exactly `ntrees` |
| `Apportion.SharesBalanced` | src/main/java/hex/speedrf/DRF.java:251-255 | of two chunk homes, the one ranked first never gets fewer trees than the other, and at most one more |
| `Apportion.NonOwnerGetsExtraTree` | src/main/java/hex/speedrf/DRF.java:254-255 | for a non-negative tree count, a calling node that is home to no chunk gets `ntrees / n + 1` trees |
| `Apportion.TenTreesOverThreeNodes` | src/main/java/hex/speedrf/DRF.java:238-258 | chunks on nodes 1, 1, 2, 3 and ten trees give the shares 4, 3, 3 |
| `Apportion.Share` | src/main/java/hex/speedrf/DRF.java:249-256 | the share is the base `ntrees / n` or one more, and a chunk home gets one more only when `n` does not divide `ntrees` |
| `Apportion.HowManyTrees` | src/main/java/hex/speedrf/DRF.java:238-258 | the method's result is the share `Share` of the calling node, about which the lemmas above hold |
| `JavaInt.Quot` | src/main/java/hex/speedrf/DRF.java:253 | Java's `/` truncates toward zero: the remainder has the dividend's sign and is smaller than the divisor |
| `Admission.Usable` | src/main/java/hex/speedrf/DRF.java:126-127 | a node's usable memory is 3/8 of `maxMem - (totMem - freeMem)`, truncated toward zero |
| `Admission.LocalBytes` | src/main/java/hex/speedrf/DRF.java:116-123 | the bytes homed on the calling node: 0 when it homes no chunk, all the chunks' bytes when it homes every chunk |
| `Admission.LocalBytesBounded` | src/main/java/hex/speedrf/DRF.java:116-124 | with non-negative chunk sizes the bytes homed on the calling node lie between 0 and the bytes of all chunks |
| `Admission.FirstViolation` | src/main/java/hex/speedrf/DRF.java:125-137 | the scan reports nothing exactly when every node's usable memory exceeds the needed bytes; otherwise the smallest index that does not, with its usable memory and the needed bytes |
| `Admission.Admit` | src/main/java/hex/speedrf/DRF.java:124-137 | nothing is reported exactly when every node's usable memory exceeds `frameBytes - localBytes`; a report names a cluster index, that node's usable memory and `frameBytes - localBytes` |
| `Admission.EightHundredNeededSevenHundredUsable` | src/main/java/hex/speedrf/DRF.java:115-138 | a 900 MB frame with 100 MB local and a node with 700 MB usable yields that node, 700 MB available, 800 MB required |
| `Admission.CanLoadAll` | src/main/java/hex/speedrf/DRF.java:115-138 | the method returns what `Admit` specifies: `None` (true) iff every node's usable memory minus `frameBytes - localBytes` is positive, else the first node's `AllocInfo` |
| `Validation.ClassCount` | src/main/java/hex/speedrf/DRF.java:100 | the class count is `max - min + 1` within the int range, and saturation then wrap-around outside it |
| `Validation.ClassCountAccepted` | src/main/java/hex/speedrf/DRF.java:100-102 | the class-count guard passes exactly when the column spans 2 to 254 values |
| `Validation.Validate` | src/main/java/hex/speedrf/DRF.java:94-113 | each error is reported only when every earlier guard passed: the response type, then the class count, the sampling rate, the split-feature count, and last the admission check, only with non-local data, carrying the first violating node |
| `Validation.ValidateAcceptsExactly` | src/main/java/hex/speedrf/DRF.java:94-113 | validation passes exactly for runs meeting all the conditions stated directly (a NaN rate counting as in range, as the guard treats it), memory on every node included when non-local data is used |
| `Validation.LocalRunIgnoresMemory` | src/main/java/hex/speedrf/DRF.java:107-108 | without non-local data, chunks, frame size and memory figures do not change the outcome, which is never an admission error |
| `Validation.ValidatedSplitFeaturesInRange` | src/main/java/hex/speedrf/DRF.java:105-106 | after validation passes on a frame with two or more columns, the split-feature count a node uses lies in `[1, numCols - 1]` |
| `Validation.OneColumnDefaultOutOfRange` | src/main/java/hex/speedrf/DRF.java:105-106 | a one-column frame passes validation with -1, and the default split-feature count is then 0, outside `[1, 0]` |
| `Validation.NaNRatePassesGuard` | src/main/java/hex/speedrf/DRF.java:103-104 | a NaN sampling rate is never rejected by the rate guard |
| `Params.FloorSqrt` | src/main/java/hex/speedrf/DRF.java:230 | the result is the largest `r` with `r * r <= n` |
| `Params.HowManySplitFeatures` | src/main/java/hex/speedrf/DRF.java:227-231 | an explicit count is returned unchanged; -1 gives the floor of the square root of `numCols - 1` (0 with no column) |
| `Params.DefaultSplitFeaturesInRange` | src/main/java/hex/speedrf/DRF.java:229-230 | with two or more columns the default lies in `[1, numCols - 1]` |
| `ModelStore.SetSplitFeatures` | src/main/java/hex/speedrf/DRF.java:184-190 | a missing record stays missing; otherwise only slot `idx` changes, to the new count, and every other slot and field is kept |
| `ModelStore.NoLostUpdate` | src/main/java/hex/speedrf/DRF.java:182-192 | updates from distinct nodes, applied in any order, leave each node's value in its slot and everything else unchanged |
| `ModelStore.WritesCommute` | src/main/java/hex/speedrf/DRF.java:184-190 | two updates to different slots give the same record in either order |
| `ModelStore.MissingStaysMissing` | src/main/java/hex/speedrf/DRF.java:186 | any series of updates to a missing record leaves it missing |
| `RowsPerChunk.HowManyRPC` | src/main/java/hex/speedrf/DRF.java:260-266 | a fresh array with one entry per chunk holding that chunk's row count |

## Left out

- `execute`, the locking and key-value-store steps of `create` (`delete_and_lock`, `write_barrier`), `dfork`, `lcompute`, `reduce`, `onExceptionalCompletion` and `postGlobal`: distributed fork/join, locking and store plumbing.
- The retry loop of `TAtomic.invoke`: only the pure mutator is modelled; the compare-and-swap machinery is in a library that is not part of this model.
- `DRFJob` (`start`, its completion task that records the run time, `progress`, `remove`): job lifecycle that reads progress from the store.
- `RandomForest.build`, `DABuilder`, `Data.make`: tree building and data adapters outside the core.
- `dumpRFParams` and the `Log` calls: log formatting only.
- The commented-out `getNonLocalChunks`: dead code.
- `Admission.Usable`: the source multiplies by the `float` 3/8 after converting the `long` to `float`; the model uses the exact product truncated toward zero, so float rounding on large memory figures is not captured.
- `Params.FloorSqrt`: models `(int)Math.sqrt(n)` as the integer floor square root, which the double computation gives exactly for every `int`.
- 64-bit overflow of the byte sums in `canLoadAll` and of the memory figures is not modelled; sums are unbounded integers.
- `Apportion.HowManyTrees`: requires at least one chunk; with none the source divides by zero, and that exception is not modelled. It also requires every chunk's home to be a cluster node, as it is for a live cloud.
- `Apportion.SharesSumToNTrees`: stated for `ntrees >= 0`; with a negative tree count Java's truncating division gives every owner the base share, so the total may differ (whenever `n` does not divide `ntrees`).
- `Validation.Validate`: the sampling rate's `float` infinities are not told apart from large finite values (the guard rejects both alike). It requires the frame to have a column (the response is the last one); an empty frame raises an index exception that is not modelled. Column minimum and maximum are integers here, as for the enum and integer columns that reach the class-count guard.
- `ModelStore.SetSplitFeatures`: requires the node index to address a slot of the record; an out-of-range index would raise an exception, which is not modelled.
- Node identity and order: `H2ONode` is not part of this model; node ids are integers and their natural order stands for its `compareTo`.
- `Params.DRFParams`: the sampling strategy is an opaque code, as `Sampling` is not part of this model.
