/** The step generator of the page-replacement visualiser as a specification:
    the snapshot types, one reference processed by `Tick`, the whole run by
    `Trace`, and `Generate`, the value `generateSteps` publishes. */
module Engine {
  import opened Wrappers
  import opened Pool
  import opened Policies
  import opened Runs

  datatype Algorithm = Fifo | Lru | Optimal

  /** One slot as shown in a snapshot. */
  datatype FrameState = FrameState(page: Option<int>, isNew: bool, isHit: bool)

  /** One snapshot: the frames after the reference, the page requested (-1 in
      the initial snapshot), whether it faulted and which slot it filled. */
  datatype StepState = StepState(
    frames: seq<FrameState>,
    currentPage: int,
    isPageFault: bool,
    replacedFrameIndex: Option<int>)

  /** What `generateSteps` publishes: the snapshots and the two totals. */
  datatype Simulation = Simulation(steps: seq<StepState>, faults: nat, hits: nat)

  /** The state of a run after some references: the pool, the FIFO arrival
      queue (empty for the other policies), the counters and the snapshots
      recorded so far. */
  datatype Sim = Sim(pool: Frames, queue: seq<int>, faults: nat, hits: nat, steps: seq<StepState>)

  /** The page ids shown by a snapshot, slot by slot. */
  function Pages(step: StepState): (pool: Frames)
    ensures |pool| == |step.frames|
  {
    seq(|step.frames|, i requires 0 <= i < |step.frames| => step.frames[i].page)
  }

  /** The snapshot pushed before any reference: every slot empty. */
  function InitialStep(frameCount: nat): StepState {
    StepState(seq(frameCount, _ => FrameState(None, false, false)), -1, false, None)
  }

  /** `frames.map(...)` after a reference to `page`: a slot is new when it is
      the replaced one, and a hit when it holds the page and there was no
      fault. */
  function Snapshot(pool: Frames, page: int, isPageFault: bool, replaced: Option<int>): StepState {
    StepState(
      seq(|pool|, i requires 0 <= i < |pool| =>
        FrameState(pool[i], replaced.Some? && replaced.value == i, pool[i] == Some(page) && !isPageFault)),
      page, isPageFault, replaced)
  }

  /** The arrival queue of FIFO holds each resident page once, and as many
      pages as there are filled slots. */
  ghost predicate QueueHolds(queue: seq<int>, pool: Frames) {
    (forall a, b :: 0 <= a < b < |queue| ==> queue[a] != queue[b])
    && (forall p :: p in queue <==> Resident(pool, p))
    && |queue| == Filled(pool)
  }

  /** What every state reached by a run satisfies. */
  ghost predicate Valid(alg: Algorithm, s: Sim) {
    |s.pool| >= 1 && Distinct(s.pool) && Packed(s.pool)
    && if alg == Fifo then QueueHolds(s.queue, s.pool) else s.queue == []
  }

  /** The slot a fault on `refs[t]` fills: FIFO tests its queue
      (`queue.length === frameCount`), takes the slot of the queue head when
      the queue is full and the first empty slot otherwise; LRU and Optimal
      take the first empty slot when there is one, and otherwise the slot of
      the smallest `lastUsed`, or of the farthest next use. As in the source,
      -1 comes out where `indexOf` finds nothing or the scan sees no slot;
      `SlotInRange` shows that this never happens in a run. */
  function Slot(alg: Algorithm, refs: seq<int>, t: nat, s: Sim): int
    requires t < |refs|
  {
    match alg
    case Fifo =>
      if |s.queue| == |s.pool| then
        if |s.queue| == 0 then -1 else IndexOf(s.pool, Some(s.queue[0]))
      else
        IndexOf(s.pool, None)
    case Lru =>
      var e := IndexOf(s.pool, None);
      if e != -1 then e
      else if |s.pool| == 0 then -1
      else FirstMin(LruKeys(s.pool, refs, t))
    case Optimal =>
      var e := IndexOf(s.pool, None);
      if e != -1 then e
      else if |s.pool| == 0 then -1
      else FirstMax(NextUseKeys(s.pool, refs, t))
  }

  /** One iteration of the `forEach` over the reference list. A write to
      slot -1 (`frames[-1] = page`) leaves the array's elements alone. */
  function Tick(alg: Algorithm, refs: seq<int>, t: nat, s: Sim): Sim
    requires t < |refs|
  {
    var page := refs[t];
    if Resident(s.pool, page) then
      s.(hits := s.hits + 1, steps := s.steps + [Snapshot(s.pool, page, false, None)])
    else
      var k := Slot(alg, refs, t, s);
      var pool := if 0 <= k < |s.pool| then s.pool[k := Some(page)] else s.pool;
      var queue :=
        if alg != Fifo then s.queue
        else if |s.queue| == |s.pool| && |s.queue| > 0 then s.queue[1..] + [page]
        else s.queue + [page];
      Sim(pool, queue, s.faults + 1, s.hits, s.steps + [Snapshot(pool, page, true, Some(k))])
  }

  /** In a valid state the slot a fault picks is a real slot. */
  lemma SlotInRange(alg: Algorithm, refs: seq<int>, t: nat, s: Sim)
    requires t < |refs| && Valid(alg, s)
    ensures 0 <= Slot(alg, refs, t, s) < |s.pool|
  {
    if alg == Fifo && |s.queue| == |s.pool| {
      assert s.queue[0] in s.queue && Resident(s.pool, s.queue[0]);
    }
  }

  lemma TickKeepsValid(alg: Algorithm, refs: seq<int>, t: nat, s: Sim)
    requires t < |refs| && Valid(alg, s)
    ensures Valid(alg, Tick(alg, refs, t, s)) && |Tick(alg, refs, t, s).pool| == |s.pool|
  {
    var page := refs[t];
    if !Resident(s.pool, page) {
      SlotInRange(alg, refs, t, s);
      var k := Slot(alg, refs, t, s);
      if None in s.pool && (alg != Fifo || |s.queue| < |s.pool|) {
        assert k == IndexOf(s.pool, None);
        FillFirstEmpty(s.pool, page);
      } else {
        assert None !in s.pool;
        ReplaceSlot(s.pool, k, page);
      }
      if alg == Fifo {
        FifoQueueStep(s, page, k);
      }
    }
  }

  /** The FIFO queue after a fault still holds exactly the resident pages. */
  lemma FifoQueueStep(s: Sim, page: int, k: nat)
    requires Valid(Fifo, s) && !Resident(s.pool, page) && k < |s.pool|
    requires |s.queue| == |s.pool| ==> s.pool[k] == Some(s.queue[0])
    requires |s.queue| < |s.pool| ==> k == IndexOf(s.pool, None)
    ensures var queue := if |s.queue| == |s.pool| then s.queue[1..] + [page] else s.queue + [page];
      QueueHolds(queue, s.pool[k := Some(page)])
  {
    var after := s.pool[k := Some(page)];
    if |s.queue| == |s.pool| {
      assert None !in s.pool;
      ReplaceSlot(s.pool, k, page);
      var queue := s.queue[1..] + [page];
      forall p ensures p in queue <==> Resident(after, p) {
        if p in s.queue[1..] {
          var a :| 0 <= a < |s.queue[1..]| && s.queue[1..][a] == p;
          assert s.queue[a + 1] == p;
        }
        if p in s.queue && p != s.queue[0] {
          var a :| 0 <= a < |s.queue| && s.queue[a] == p;
          assert s.queue[1..][a - 1] == p;
        }
      }
    } else {
      FillFirstEmpty(s.pool, page);
      var queue := s.queue + [page];
      assert forall p :: p in queue <==> p in s.queue || p == page;
    }
  }

  /** The state before any reference. */
  function Start(frameCount: nat): Sim {
    Sim(EmptyFrames(frameCount), [], 0, 0, [InitialStep(frameCount)])
  }

  lemma StartValid(alg: Algorithm, frameCount: nat)
    requires 1 <= frameCount
    ensures Valid(alg, Start(frameCount)) && |Start(frameCount).pool| == frameCount
  {
    assert Start(frameCount).pool[0] == None;
    assert IndexOf(Start(frameCount).pool, None) == 0;
  }

  /** `Tick` as the step of a run over `refs`; past the end of the list a
      step changes nothing. */
  function Step(alg: Algorithm, refs: seq<int>): (nat, Sim) -> Sim {
    (t: nat, s: Sim) => if t < |refs| then Tick(alg, refs, t, s) else s
  }

  /** The states of a run, one per reference processed so far: the first
      is `Start(frameCount)`, and each next one is `Tick` of the one before. */
  ghost predicate IsTrace(alg: Algorithm, refs: seq<int>, frameCount: nat, states: seq<Sim>) {
    IsRun(Step(alg, refs), Start(frameCount), |refs|, states)
  }

  /** The states after 0, 1, ..., `n` references. */
  function Trace(alg: Algorithm, refs: seq<int>, frameCount: nat, n: nat): (states: seq<Sim>)
    requires n <= |refs|
    ensures |states| == n + 1
  {
    Unroll(Step(alg, refs), Start(frameCount), n)
  }

  /** Consecutive states of a trace are one `Tick` apart. */
  lemma TraceNext(alg: Algorithm, refs: seq<int>, frameCount: nat, states: seq<Sim>, i: nat)
    requires IsTrace(alg, refs, frameCount, states) && i + 1 < |states|
    ensures i < |refs| && states[i + 1] == Tick(alg, refs, i, states[i])
  {
    assert states[i + 1] == Step(alg, refs)(i, states[i]);
  }

  /** One more reference extends a trace. */
  lemma TraceExtend(alg: Algorithm, refs: seq<int>, frameCount: nat, states: seq<Sim>, t: nat)
    requires IsTrace(alg, refs, frameCount, states) && t == |states| - 1 && t < |refs|
    ensures IsTrace(alg, refs, frameCount, states + [Tick(alg, refs, t, states[t])])
  {
    Extend(Step(alg, refs), Start(frameCount), |refs|, states, t);
  }

  /** `Trace(n)` is a trace. */
  lemma TraceIsTrace(alg: Algorithm, refs: seq<int>, frameCount: nat, n: nat)
    requires n <= |refs|
    ensures IsTrace(alg, refs, frameCount, Trace(alg, refs, frameCount, n))
  {
    UnrollIsRun(Step(alg, refs), Start(frameCount), |refs|, n);
  }

  /** A run is determined by its inputs: every trace of `n + 1` states is
      `Trace(n)`. */
  lemma TraceUnique(alg: Algorithm, refs: seq<int>, frameCount: nat, n: nat, states: seq<Sim>)
    requires IsTrace(alg, refs, frameCount, states) && |states| == n + 1
    ensures states == Trace(alg, refs, frameCount, n)
  {
    RunUnique(Step(alg, refs), Start(frameCount), |refs|, n, states);
  }

  /** Every state a run reaches keeps `frameCount` slots, no page in two of
      them, the empty slots last, and (for FIFO) the arrival queue holding
      exactly the resident pages. */
  lemma {:induction false} TraceValid(alg: Algorithm, refs: seq<int>, frameCount: nat, states: seq<Sim>, j: nat)
    requires 1 <= frameCount && IsTrace(alg, refs, frameCount, states) && j < |states|
    ensures Valid(alg, states[j]) && |states[j].pool| == frameCount
  {
    if j == 0 {
      StartValid(alg, frameCount);
    } else {
      TraceValid(alg, refs, frameCount, states, j - 1);
      TraceNext(alg, refs, frameCount, states, j - 1);
      TickKeepsValid(alg, refs, j - 1, states[j - 1]);
    }
  }

  /** `generateSteps`: nothing for an empty reference list or a frame count
      that is not positive, otherwise the snapshots and totals of the run. */
  function Generate(refs: seq<int>, frameCount: int, alg: Algorithm): Option<Simulation> {
    if |refs| == 0 || frameCount <= 0 then None
    else
      var s := Trace(alg, refs, frameCount, |refs|)[|refs|];
      Some(Simulation(s.steps, s.faults, s.hits))
  }
}
