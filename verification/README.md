# ARcane versioned voxel store — a Dafny model

This project models the core of ARcane's editing model:

- the **versioned work data** of `ts/model/work.ts`: a forward-only,
  copy-on-write history of one large voxel buffer. A `WorkDataVersion` either
  owns the `WorkData` or, once superseded, knows its successor and the box
  that changed. `mutate` runs a transformer against a mutation context, folds
  every `markDirty` box into one enclosing box, and moves the buffer to a new
  version only when something was marked dirty;
- the dense buffer itself: `mapIndex`, `GRID_SIZE`, the two typed arrays of
  `WorkData` and the bit layout of a material word;
- the per-topic switches of `LogManager` in `ts/utils/logger.ts`, and the
  `enabled` flag of the loggers it caches;
- the fallback monotonic clock of `ts/utils/time.ts` (the `Date.now()`
  closure with its `lastValue`/`drift` clamp) and `Stopwatch` over it.

Modules, one per concept:

| file | module | models |
|---|---|---|
| `wrappers.dfy` | `Wrappers` | `Option` for nullable fields, `Result` for thrown errors |
| `region.dfy` | `Region` | `Aabb3`, `markDirty`, the fold of a mutation's dirty boxes |
| `grid.dfy` | `Grid` | `GRID_SIZE`, `mapIndex`, material word, `WorkData` and its writes |
| `version.dfy` | `Version` | `WorkDataVersion`, the mutation context, `createWork` |
| `logger.dfy` | `Logging` | `LogManager`, `LoggerImpl.enabled` |
| `clock.dfy` | `Clock` | the fallback `now`, `Stopwatch` |

How the version objects are represented: every `WorkDataVersion` ever
allocated lives in a heap `seq<Node>`, and a reference is an index into it.
A `Node` keeps the source's three nullable fields (`_data`, `_successor`,
`_dirtyRegion`) as `Option`s, so that the source's own guard in `mutate` can
be modelled as written. The heap invariant `Version.Valid` states what the
source relies on: every node is Owning (data, no successor, no dirty region)
or Superseded (successor and dirty region, no data); successors point forward;
no two nodes share a successor. `Create` and `Mutate` are proved to keep it.

A transformer is modelled as the sequence of calls it makes on its context:
density and material writes, `markDirty` calls, and possibly a `Throw`. A
transformer that reads the data and decides what to do is covered, because
whatever it decides, it ends up making some such sequence of calls. Writes
follow typed-array semantics: the value is reduced modulo 2^8 or 2^32, and an
index outside the array is ignored. Buffer identity is modelled by value: the
successor holds the buffer as the transformer left it, and the old version
holds none.

Behaviour of the code a reader might not expect:

- `mutate` creates a successor whenever the context's dirty region is
  non-null (ts/model/work.ts:123). A `markDirty` with `min >= max` leaves a
  non-null, empty box and so still creates one.
- A transformer that writes cells but never calls `markDirty` gets the same
  version back (ts/model/work.ts:123, 132-134). That version keeps the writes,
  because they were made in place on its buffer (ts/model/work.ts:119-121).
- If the transformer throws (ts/model/work.ts:121), its writes stay in the
  buffer. The version is not superseded, and the error propagates.

## Model

| member | source | states |
|---|---|---|
| `Region.MarkDirty` | ts/model/work.ts:146-162 | the first call yields exactly `(min, max)`; every call yields the smallest box enclosing the held box and the new one |
| `Region.Fold` | ts/model/work.ts:146-162 | a run of `markDirty` calls leaves no region only if nothing was held and nothing marked; otherwise it leaves the smallest box enclosing the held box and every marked box |
| `Region.Accumulate` | ts/model/work.ts:140 | the region of one mutation is null exactly when nothing was marked, and otherwise is the smallest box enclosing every marked box |
| `Region.EnclosureUnique` | ts/model/work.ts:36-43 | the smallest enclosing box is unique, so it is fixed by the marked boxes alone |
| `Region.AccumulateOrderIndependent` | ts/model/work.ts:146-162 | the accumulated region depends only on which boxes were marked: neither their order nor repeats change it |
| `Region.AccumulateExample` | ts/model/work.ts:146-162 | `[0,0,0]-[1,1,1]` and `[5,5,5]-[6,6,6]`, marked in either order, give `[0,0,0]-[6,6,6]` |
| `Grid.Unmap` | ts/model/work.ts:172-175 | every linear index of the arrays splits into a coordinate triple inside the grid |
| `Grid.MapIndex` | ts/model/work.ts:172-175 | for coordinates inside the grid the index is within `[0, 256³)` and `Unmap` recovers the coordinates |
| `Grid.MapIndexOnto` | ts/model/work.ts:172-175 | every index of the arrays is `mapIndex` of the cell `Unmap` gives, so `mapIndex` maps the grid onto the arrays |
| `Grid.MapIndexInjective` | ts/model/work.ts:172-175 | distinct cells inside the grid have distinct indices |
| `Grid.Pack` | ts/model/work.ts:189-203 | red, green, blue, gloss and material type occupy disjoint bit ranges: each is read back unchanged from the packed word |
| `Grid.Unpack` | ts/model/work.ts:189-203 | the five fields cover every bit: repacking the fields of any word gives the word back |
| `Grid.NewWorkData` | ts/model/work.ts:182-207 | a new `WorkData` has two arrays of length `256³`, all zero |
| `Grid.SetDensity` | ts/model/work.ts:187 | a density write changes only the addressed cell, stores the value modulo 2^8, and is ignored outside the array |
| `Grid.SetMaterial` | ts/model/work.ts:204 | a material write changes only the addressed cell, stores the value modulo 2^32, and is ignored outside the array |
| `Grid.DensityReadBack` | ts/model/work.ts:184-187 | a density written inside the grid, border cells included, reads back unchanged: the buffer enforces no border rule |
| `Version.Create` | ts/model/work.ts:106-111 | `create` adds one Owning node holding the given data, changes no existing node, and keeps the heap invariant |
| `Version.Head` | ts/model/work.ts:63-70 | `head` returns a node at or after the start, with no successor; in a valid heap that node owns the data |
| `Version.Chain` | ts/model/work.ts:59-70 | the timeline from any node is a run of Superseded nodes, each linked to the next, ending at the one Owning node `head` returns |
| `Version.ExpectData` | ts/model/work.ts:85-93 | `expectData` succeeds exactly when the node holds data and returns that data; otherwise it fails with "Out-dated" |
| `Version.ExpectDataOnlyAtHead` | ts/model/work.ts:85-93 | in a valid heap, `expectData` succeeds exactly on the node that is its own head |
| `Version.Marks` | ts/model/work.ts:119-123 | the recorded boxes come only from `markDirty` calls, and when the transformer returns normally every such call is recorded |
| `Version.MarksAreMarkCalls` | ts/model/work.ts:119-123 | every recorded box was passed to some `markDirty` call of the transformer |
| `Version.RunEdit` | ts/model/work.ts:119-121 | running a transformer leaves the dirty region that its `markDirty` calls fold to; it throws exactly when it reaches a throw; the array lengths are kept; a transformer that writes nothing leaves the data as it was |
| `Version.Performed` | ts/model/work.ts:119-121 | the calls a transformer makes are those of its body up to, not including, the first throw; there is a throw after them exactly when the transformer throws |
| `Version.RunEditDensity` | ts/model/work.ts:119-121 | after a transformer runs, a density cell no performed call writes keeps its value; otherwise it holds the last value written to it, modulo 2^8 |
| `Version.RunEditMaterial` | ts/model/work.ts:119-121 | after a transformer runs, a material cell no performed call writes keeps its value; otherwise it holds the last value written to it, modulo 2^32 |
| `Version.Transformed` | ts/model/work.ts:119-121 | the edited buffer keeps the array lengths, and a transformer that makes no write leaves it as it was |
| `Version.Mutate` | ts/model/work.ts:113-135 | an out-dated node is refused with nothing changed; a throwing transformer keeps its writes and no successor is made; without marks the same node is returned, still Owning; with marks a new Owning node receives the buffer and the old node records the accumulated box and the new node as successor; no other node changes; the heap invariant is kept |
| `Version.MutateReadOnlyChangesNothing` | ts/model/work.ts:123-134 | a transformer that neither writes nor marks leaves the heap unchanged; if it also returns normally, the same node is returned |
| `Version.MutateStaleRefused` | ts/model/work.ts:115-117 | mutating any node that is not the head of its timeline is refused and changes nothing |
| `Version.MutateMovesHead` | ts/model/work.ts:123-131 | after a recording mutation, every node whose head was the mutated node now has the new node as head; every other node keeps its head |
| `Version.MutateAll` | ts/model/work.ts:113-135 | repeated mutation of the version last returned leaves older nodes alone, returns a node of the heap, and keeps the heap invariant |
| `Version.DirtyRegions` | ts/model/work.ts:59-73 | walking successors from a node collects one dirty region per Superseded node before the head: the i-th box is the dirty region of the i-th node of the timeline |
| `Version.MutateAllHistory` | ts/model/work.ts:113-135 | after k recording mutations from an Owning node, the heap stays valid, the timeline's dirty regions are, in order, the boxes the k transformers accumulated, and its head is the node returned |
| `Version.CreateWork` | ts/model/work.ts:209-219 | `createWork` yields an Owning node over zero-filled data with extents `[50, 40, 50]` |
| `Version.EditScenario` | ts/model/work.ts:113-135 | writing 255 at `(10,10,10)` and marking `[10,10,10]-[11,11,11]` records exactly that box on the old node, which then refuses `expectData`, while the new head reads 255 back |
| `Logging.NewLogManager` | ts/utils/logger.ts:18-24 | a new manager caches no loggers and has every topic off |
| `Logging.IsTopicEnabled` | ts/utils/logger.ts:69-72 | a disabled topic is off whatever else holds; a topic not disabled is on when `omni` is set or it was enabled by name; with neither, it is off |
| `Logging.IsEnabled` | ts/utils/logger.ts:102-105 | in a coherent manager, a cached logger's `isEnabled` equals `isTopicEnabled` of its topic |
| `Logging.EnableTopic` | ts/utils/logger.ts:26-35 | afterwards the topic is enabled and its logger, if any, is on; every other topic and logger is unchanged; coherence is kept |
| `Logging.DisableTopic` | ts/utils/logger.ts:37-45 | afterwards the topic is disabled though it stays in the enabled set; its logger, if any, is off; every other topic and logger is unchanged; coherence is kept |
| `Logging.EnableAllTopics` | ts/utils/logger.ts:47-56 | every topic becomes enabled, both topic sets are cleared, every cached logger is switched on |
| `Logging.DisableAllTopics` | ts/utils/logger.ts:58-67 | every topic becomes disabled, both topic sets are cleared, every cached logger is switched off |
| `Logging.SetAll` | ts/utils/logger.ts:53-55 | the `forEach` over cached loggers sets every flag and adds or drops no logger |
| `Logging.GetLogger` | ts/utils/logger.ts:74-83 | a cached logger is left as it is; otherwise one is cached whose flag is `isTopicEnabled`; the topic switches are untouched; coherence is kept |
| `Logging.GetLoggerIdempotent` | ts/utils/logger.ts:74-83 | asking for the same topic's logger a second time changes nothing |
| `Logging.LoggersTrackTopics` | ts/utils/logger.ts:26-83 | after any sequence of calls on a new manager, every cached logger's flag equals `isTopicEnabled` of its topic |
| `Logging.ApplyAllKeepsCoherence` | ts/utils/logger.ts:26-83 | any sequence of calls keeps a coherent manager coherent |
| `Clock.Now` | ts/utils/time.ts:15-23 | the result is never below the previous result and becomes `lastValue`; the drift never shrinks; it grows by exactly `lastValue - t` when the corrected reading `t` is behind; otherwise the result is the corrected reading and the drift is unchanged |
| `Clock.NowAll` | ts/utils/time.ts:15-23 | successive calls return one time per raw reading |
| `Clock.NowMonotonic` | ts/utils/time.ts:12-23 | over any sequence of raw readings the returned times never decrease, the drift never shrinks, and `lastValue` is the last time returned |
| `Clock.NowNeverNegative` | ts/utils/time.ts:12-13 | starting from `lastValue = 0`, no returned time is negative |
| `Clock.ResetWatch` | ts/utils/time.ts:35-38 | `reset` makes exactly one `now()` call: the clock moves on as that call moves it, and the origin is the time it returns, the clock's new `lastValue` |
| `Clock.Elapsed` | ts/utils/time.ts:40-43 | `elapsed` makes exactly one `now()` call: the clock moves on as that call moves it, and the reading is its time minus the origin; it is non-negative when the watch was reset against the same clock |
| `Clock.ElapsedAfterCalls` | ts/utils/time.ts:35-43 | after a reset and any number of other `now()` calls, `elapsed` is non-negative |

## Left out

- The `performance.now` branch of `now` (ts/utils/time.ts:8-10) is left out: it is a foreign, floating-point clock.
- `Date.now()` is not called: each call of the fallback `now` is given its raw reading as a parameter.
- Times, coordinates and array values are unbounded integers. Double-precision rounding above 2^53 is not modelled. Neither is the `Float32Array` storage of `vec3`, which is exact only up to 2^24. Voxel coordinates and millisecond times stay far below both.
- Non-integer and NaN arguments to `markDirty` and to the typed-array writes are not modelled.
- `Math.min`/`Math.max` on NaN are not modelled for the same reason.
- Console output of `LoggerImpl.log`/`warn`/`error` (ts/utils/logger.ts:107-122) is left out as a side effect. Only the `enabled` flag is modelled.
- Logger object identity is not modelled: the cache maps each topic to its logger's flag. The source keeps at most one logger per topic, so this loses nothing.
- The one-voxel empty border (ts/model/work.ts:14-17) is a documented caller contract. The code never checks it, so the model does not either.
- Coordinates passed to `markDirty` are not bounds-checked, as in the code.
- Transformers that keep the context and call it after `mutate` returns are not modelled. So are transformers that call `mutate` re-entrantly. The source does not guard against either.
- Reads the transformer makes are not modelled as separate calls. Only their effect on which writes and marks it makes is kept.
- Pruning and freeing of superseded versions is not modelled: the heap only grows.
- The `Work` interface's holder replacing its `data` with the returned version is modelled as `Version.MutateAll`. The source leaves that step to callers.
- `successor`, `dirtyRegion` and the nullable `data` getter are the `Node` fields themselves and have no members of their own.
- Version.Head, Version.Chain and Version.DirtyRegions: require the heap invariant `Version.Valid`, which guarantees that following successors ends. The source's loop has no such guard; every heap built by `Create` and `Mutate` satisfies the invariant, so no reachable chain is cyclic.
