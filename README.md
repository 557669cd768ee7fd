# Page-replacement visualiser: the step generator, verified

The visualiser replays a list of page references against a fixed number of
memory frames and records, for every reference, a snapshot of the frames,
the page requested, whether it faulted and which slot it filled; it also
totals faults and hits. Three policies choose the slot a fault overwrites
once every frame is full: FIFO evicts the page that arrived first, LRU the
page whose latest reference is oldest, and Optimal (Belady) the page whose
next reference is farthest away. A small parser turns the text the user
types into the list of references.

This project models `generateSteps` and the reference-string parser of
`components/page-replacement-visualizer.tsx` in Dafny and proves what the
snapshots promise.

- `Engine` (engine.dfy) is the specification: the snapshot types, `Tick`
  (one reference processed, on a value state that holds the frames, the FIFO
  queue, the counters and the snapshots so far), `Slot` (the slot each
  policy picks), `Trace` (the states a run passes through) and `Generate`
  (what `generateSteps` publishes). `Runs` (runs.dfy) holds the generic
  facts about runs of a step function that `Trace` is built on.
- `Simulator` (simulator.dfy) is the imperative code. It writes into an
  `array<Option<int>>` of frames and updates the FIFO queue, the LRU
  `lastUsed` map and the Optimal `futureUse` map inside loops, as the source
  does. Each method is proved to compute exactly `Generate`.
- `Pool` and `Policies` (pool.dfy, policies.dfy) hold the frame-pool
  operations (`indexOf`, `includes`) and the victim scans. Each scan is a
  recursive function with its meaning as postconditions.
- `Properties` and `Victims` (properties.dfy, victims.dfy) prove the
  promises of the published result. They cover the number and shape of the
  snapshots, fault exactly when the page is not resident, and the counts
  adding up. They cover which slot changes and the lowest empty slot being
  filled, that frames never hold a page twice, and how each policy's victim
  relates to load order, recency and next use.
- `ReferenceParser` (parser.dfy) models the parser effect: `trim`,
  `split(/\s+/)`, `Number.parseInt(token, 10)`, and rejection on NaN.

JavaScript details are modelled explicitly:

- An empty slot is `None` (the source's `null`).
- `indexOf` returns -1 when it finds nothing.
- `lastUsed[p] || 0` falls back to 0.
- "Never used again" (`Number.POSITIVE_INFINITY`) is the sentinel `|refs|`, which lies beyond every index.
- The initial `lruTime` of infinity is an `Option`.
- The strict `<` and `>` scans pick the lowest index on ties.

With an empty reference list, or a frame count that is not positive, `generateSteps` returns at once (line 66). It publishes nothing: no initial snapshot and no error. `Generate` is `None` there.

`Scenarios` (scenarios.dfy) runs the reference string `1 2 3 1` with two frames through `Generate`, where the policies part ways. FIFO and LRU fault on all four references. Optimal evicts `2`, which is never used again, and hits on the final `1`: 3 faults and 1 hit.

## Model

| member | source | states |
|---|---|---|
| Simulator.GenerateSteps | components/page-replacement-visualizer.tsx:65-238 | the result is `Generate`: nothing for an empty list or a non-positive frame count, otherwise the snapshots and totals of the chosen policy's run |
| Simulator.SimulateFifo | components/page-replacement-visualizer.tsx:81-115 | the in-place FIFO loop (array of frames, `shift`/`push` queue, counters, pushed snapshots) ends in exactly the frames, snapshots and totals of `Trace` after every reference |
| Simulator.SimulateLru | components/page-replacement-visualizer.tsx:116-165 | the in-place LRU loop ends in the state of `Trace`; its loop keeps `lastUsed` equal to the latest index of every page referenced so far |
| Simulator.SimulateOptimal | components/page-replacement-visualizer.tsx:166-226 | the in-place Optimal loop ends in the state of `Trace` |
| Simulator.ScanLeastRecent | components/page-replacement-visualizer.tsx:134-145 | the strict `<` scan over `lastUsed[frames[i]] \|\| 0` returns the first slot with the smallest key, and that key is at most every other slot's |
| Simulator.FutureUses | components/page-replacement-visualizer.tsx:182-195 | `futureUse` has an entry exactly for each resident page, and it is that page's first reference after the current index, or `|refs|` (infinity) when there is none |
| Simulator.ScanFarthest | components/page-replacement-visualizer.tsx:197-207 | the strict `>` scan starting from -1 returns the first slot with the largest `futureUse` |
| Simulator.FarthestVictim | components/page-replacement-visualizer.tsx:181-210 | on full frames the Optimal victim is the first slot whose page's next use is farthest, as `Slot` specifies |
| Pool.IndexOf | components/page-replacement-visualizer.tsx:93-96 | `indexOf` is -1 exactly when the value is absent, and otherwise the first index holding it |
| Pool.EmptyFrames | components/page-replacement-visualizer.tsx:69 | `Array(frameCount).fill(null)` has `frameCount` slots and no page resident |
| Pool.Filled | components/page-replacement-visualizer.tsx:91 | the number of filled slots equals the frame count exactly when no slot is empty |
| Pool.FillFirstEmpty | components/page-replacement-visualizer.tsx:96-98 | writing a new page into `indexOf(null)` keeps pages distinct and empty slots last, adds exactly that page and fills one more slot |
| Pool.ReplaceSlot | components/page-replacement-visualizer.tsx:92-94 | overwriting a slot of full frames with a non-resident page keeps them distinct and full, and swaps exactly the old page for the new one |
| Policies.FirstMin | components/page-replacement-visualizer.tsx:137-143 | the chosen index has the smallest key, and every earlier index a strictly larger one |
| Policies.FirstMax | components/page-replacement-visualizer.tsx:201-207 | the chosen index has the largest key, and every earlier index a strictly smaller one |
| Policies.LastUseMap | components/page-replacement-visualizer.tsx:152-153 | after the first `n` references, `lastUsed` holds exactly the pages referenced, each mapped to its latest reference, with no later reference of it |
| Policies.NextUseFrom | components/page-replacement-visualizer.tsx:190-194 | the next use of a page is its first reference at or after the position, or `|refs|` when it is not referenced again |
| Engine.SlotInRange | components/page-replacement-visualizer.tsx:91-98 | in every reachable state the slot a fault picks is a real slot: `indexOf(oldestPage)` and the scans never give -1 |
| Engine.FifoQueueStep | components/page-replacement-visualizer.tsx:91-100 | shifting the head on a full queue and pushing the new page keeps the queue holding each resident page once, as many as filled slots |
| Engine.TickKeepsValid | components/page-replacement-visualizer.tsx:84-114 | one reference keeps the frame count, distinct pages, empty slots last and (FIFO) the queue in step with the frames |
| Engine.StartValid | components/page-replacement-visualizer.tsx:68-79 | the initial state, with every slot empty and an empty queue, satisfies that invariant |
| Engine.TraceValid | components/page-replacement-visualizer.tsx:84-226 | every state a run reaches satisfies the invariant and has `frameCount` slots |
| Engine.TraceUnique | components/page-replacement-visualizer.tsx:84-115 | the run is deterministic: any sequence of states that starts empty and follows `Tick` is `Trace` |
| Properties.TickAppends | components/page-replacement-visualizer.tsx:105-114 | a reference appends exactly one snapshot, which shows the new frames, and adds one to faults or to hits according to its fault flag |
| Properties.TickObeys | components/page-replacement-visualizer.tsx:86-114 | the snapshot of one reference obeys `StepObeys` for the frames before it |
| Properties.TraceShape | components/page-replacement-visualizer.tsx:68-114 | after `j` references there are `j + 1` snapshots; the first is the initial one and the last shows the frames; faults count the fault snapshots; faults plus hits is `j` |
| Properties.TracePrefix | components/page-replacement-visualizer.tsx:105 | a snapshot, once pushed, is never changed by later references |
| Properties.GenerateShape | components/page-replacement-visualizer.tsx:66-79 | nothing is generated exactly when the list is empty or the frame count is not positive. Otherwise there are `|refs| + 1` snapshots, faults plus hits is `|refs|`, and the first snapshot has `frameCount` empty unmarked slots, page -1, no fault and no replaced slot |
| Properties.GenerateFrames | components/page-replacement-visualizer.tsx:69-100 | every snapshot has `frameCount` slots, no page in two slots and the empty slots after the filled ones |
| Properties.GenerateSteps | components/page-replacement-visualizer.tsx:86-114 | every snapshot obeys `StepObeys` for the previous one. It is a fault exactly when the page was not resident. A hit changes no slot and reports no replaced slot. A fault writes the page into the one reported slot, the lowest empty slot when there is one. `isNew` is set exactly at that slot, and `isHit` exactly at the slot holding the page on a hit |
| Properties.ObeysLeavesResident | components/page-replacement-visualizer.tsx:94-97 | after any reference its page is resident |
| Properties.GenerateRepeatIsHit | components/page-replacement-visualizer.tsx:86 | a reference to the same page as the reference before it is never a fault |
| Victims.TraceReferenced | components/page-replacement-visualizer.tsx:84-115 | every page resident after `j` references is one of those references |
| Victims.FifoOrder | components/page-replacement-visualizer.tsx:82-100 | throughout a FIFO run the queue lists the resident pages in the order of their latest loads |
| Victims.FifoEvictsOldest | components/page-replacement-visualizer.tsx:91-94 | on a full fault FIFO overwrites the slot whose page was loaded before every other resident page |
| Victims.LruEvictsLeastRecent | components/page-replacement-visualizer.tsx:132-146 | on a full fault LRU overwrites a slot whose page has a `lastUsed` entry strictly smaller than every other slot's, so ties never arise |
| Victims.OptimalEvictsFarthest | components/page-replacement-visualizer.tsx:181-210 | on a full fault Optimal overwrites the slot whose page's next use is farthest. A page next used equally far is never used again and sits in a higher slot |
| Victims.GenerateFifoVictims | components/page-replacement-visualizer.tsx:81-115 | in the published FIFO snapshots, every fault on full frames replaced the page with the oldest load |
| Victims.GenerateLruVictims | components/page-replacement-visualizer.tsx:116-165 | in the published LRU snapshots, every fault on full frames replaced the page whose latest earlier reference is oldest |
| Victims.GenerateOptimalVictims | components/page-replacement-visualizer.tsx:166-226 | in the published Optimal snapshots, every fault on full frames replaced the page whose next reference is farthest away |
| ReferenceParser.Trim | components/page-replacement-visualizer.tsx:50 | `trim` gives the slice of the text between a blank prefix and a blank suffix, and that slice neither begins nor ends with white space, so exactly the white space at both ends is removed |
| ReferenceParser.TrimBlank | components/page-replacement-visualizer.tsx:50 | `trim` gives the empty text exactly when the text is all white space |
| ReferenceParser.TrimNoop | components/page-replacement-visualizer.tsx:50 | `trim` leaves a text without white space at either end unchanged |
| ReferenceParser.TrimIdempotent | components/page-replacement-visualizer.tsx:50 | trimming a trimmed text changes nothing |
| ReferenceParser.TrimPadded | components/page-replacement-visualizer.tsx:50 | `trim` of a text wrapped in any white space gives back that text, when it neither begins nor ends with white space |
| ReferenceParser.Split | components/page-replacement-visualizer.tsx:51 | `split(/\s+/)` gives at least one piece; no piece holds white space; only the first piece (text starting with white space) and the last (text ending with it) can be empty |
| ReferenceParser.SplitCover | components/page-replacement-visualizer.tsx:51 | the pieces of `split(/\s+/)`, with a non-empty run of white space between each two, make up the text again, so the text is cut exactly at its maximal runs of white space |
| ReferenceParser.SplitJoin | components/page-replacement-visualizer.tsx:51 | splitting non-empty, space-free tokens with any non-empty run of white space (spaces, tabs, line breaks) between each two gives the tokens back |
| ReferenceParser.ParseInt | components/page-replacement-visualizer.tsx:53-54 | `parseInt(token, 10)` yields a number only when the token holds a digit |
| ReferenceParser.ParseIntValue | components/page-replacement-visualizer.tsx:53 | leading white space, an optional `+` or `-`, then digits (leading zeros allowed) followed by anything not starting with a digit: `parseInt` gives the digits' decimal value, negated after `-`; so `"+7"` and `"007"` read as 7 and `"12abc"` as 12 |
| ReferenceParser.ParseIntNaN | components/page-replacement-visualizer.tsx:53-54 | when no digit follows the leading white space and the optional sign, `parseInt` gives NaN: `""`, `"-"`, `"+x"`, `"a2"` |
| ReferenceParser.ParseIntPrefix | components/page-replacement-visualizer.tsx:53 | the decimal form of any integer, followed by anything that does not start with a digit, reads back as that integer |
| ReferenceParser.ParseAll | components/page-replacement-visualizer.tsx:52-56 | the map succeeds exactly when every token reads as a number, and then gives one number per token, in order |
| ReferenceParser.ParseReferences | components/page-replacement-visualizer.tsx:49-56 | the text is accepted exactly when every token of the trimmed, split text reads as a number; the list then holds, in order, the number each token reads as, one per token and at least one |
| ReferenceParser.OnReferenceString | components/page-replacement-visualizer.tsx:57-60 | the effect leaves either no error or the one error message |
| ReferenceParser.BlankRejected | components/page-replacement-visualizer.tsx:49-60 | an empty or all-blank text is rejected: the error is shown and the parsed list is kept |
| ReferenceParser.EffectOutcome | components/page-replacement-visualizer.tsx:47-62 | the error is cleared exactly when the text parses, and the stored list is then the parsed list, non-empty with one page per token. A rejected text shows the one error message and leaves the stored list unchanged |
| ReferenceParser.RoundTrip | components/page-replacement-visualizer.tsx:49-57 | any non-empty list of integers, written in decimal with any runs of white space between them and any white space around them, parses back to exactly that list |
| Scenarios.TwoFrames | components/page-replacement-visualizer.tsx:65-226 | for `1 2 3 1` with two frames, `generateSteps` gives 5 snapshots; FIFO and LRU report 4 faults and 0 hits, Optimal 3 faults and 1 hit |

## Left out

- React state, `useEffect` wiring and the `set…` calls that publish the result (lines 33-44, 229-237): the model returns the value `generateSteps` publishes instead.
- The animation timer and the play, pause, reset and skip handlers (lines 241-276): these are timer-driven UI pacing with no replacement logic.
- The hit and fault ratio display (lines 509-529): it is floating-point division and formatting.
- The JSX timeline and the running counts (lines 283-533): these are presentation only.
- The other files (app/page.tsx, app/visualizer/page.tsx, components/algorithm-card.tsx, components/memory-animation.tsx): they hold static UI with no replacement logic.
- The unused `framesCopy` locals (lines 85, 120, 168): they have no effect.
- A frame count that is NaN, or 2^32 or more: `Array(frameCount)` (line 69) throws a RangeError before any step is produced, and the input's `max` attribute does not stop such a typed value. The model takes the frame count as an integer and allocates any positive number of frames.
- ReferenceParser.ParseInt: JavaScript numbers are doubles, so digit strings beyond 2^53 lose precision in the source. The model reads them exactly.
- ReferenceParser.ParseInt: `-0` is read as 0. Every comparison in the source treats `-0` as 0, so nothing differs.
- ParseInt: its own contract says only that a number needs a digit; the value it reads and the NaN cases are stated by ParseIntValue and ParseIntNaN.
- The totals for the default reference string `7 0 1 2 0 3 0 4 2 3 0 3 2 1 2` with 3 frames are not proved; only the four-reference scenario is. Unrolling fifteen references through the specification is beyond what the solver handles here.
- That Optimal gives the fewest faults of any policy (Belady's theorem) is not proved. The model proves only that Optimal picks the victim with the farthest next use, as the code does.
