/** `generateSteps` as the source runs it: one frames array updated in place,
    a FIFO queue, an LRU `lastUsed` record and an Optimal `futureUse` record,
    each proved to produce exactly what `Engine.Generate` specifies. */
module Simulator {
  import opened Wrappers
  import opened Pool
  import opened Policies
  import opened Engine

  method GenerateSteps(refs: seq<int>, frameCount: int, algorithm: Algorithm) returns (r: Option<Simulation>)
    ensures r == Generate(refs, frameCount, algorithm)
  {
    if |refs| == 0 || frameCount <= 0 {
      return None;
    }
    var frames := new Option<int>[frameCount](_ => None);
    var result := [InitialStep(frameCount)];
    var steps, faults, hits;
    match algorithm {
      case Fifo => steps, faults, hits := SimulateFifo(refs, frames, result);
      case Lru => steps, faults, hits := SimulateLru(refs, frames, result);
      case Optimal => steps, faults, hits := SimulateOptimal(refs, frames, result);
    }
    return Some(Simulation(steps, faults, hits));
  }

  /** The FIFO branch: a fault on a full queue shifts the oldest page off the
      queue and overwrites its slot, otherwise it fills the first empty slot;
      either way the page is pushed onto the queue. */
  method SimulateFifo(refs: seq<int>, frames: array<Option<int>>, init: seq<StepState>)
    returns (steps: seq<StepState>, faults: nat, hits: nat)
    requires frames.Length >= 1 && frames[..] == EmptyFrames(frames.Length)
    requires init == [InitialStep(frames.Length)]
    modifies frames
    ensures var s := Trace(Fifo, refs, frames.Length, |refs|)[|refs|];
      frames[..] == s.pool && steps == s.steps && faults == s.faults && hits == s.hits
  {
    ghost var n := frames.Length;
    ghost var states := [Start(n)];
    var queue: seq<int> := [];
    steps, faults, hits := init, 0, 0;
    for t := 0 to |refs|
      invariant IsTrace(Fifo, refs, n, states) && |states| == t + 1
      invariant states[t] == Sim(frames[..], queue, faults, hits, steps)
    {
      ghost var before := states[t];
      TraceValid(Fifo, refs, n, states, t);
      SlotInRange(Fifo, refs, t, before);
      var page := refs[t];
      var isPageFault := Some(page) !in frames[..];
      var replacedFrameIndex: Option<int> := None;
      if isPageFault {
        faults := faults + 1;
        if |queue| == frames.Length {
          var oldestPage := queue[0];
          queue := queue[1..];
          var k := IndexOf(frames[..], Some(oldestPage));
          assert k == Slot(Fifo, refs, t, before);
          frames[k] := Some(page);
          replacedFrameIndex := Some(k);
        } else {
          var emptyIndex := IndexOf(frames[..], None);
          assert emptyIndex == Slot(Fifo, refs, t, before);
          frames[emptyIndex] := Some(page);
          replacedFrameIndex := Some(emptyIndex);
        }
        queue := queue + [page];
      } else {
        hits := hits + 1;
      }
      steps := steps + [Snapshot(frames[..], page, isPageFault, replacedFrameIndex)];
      ghost var after := Tick(Fifo, refs, t, before);
      assert frames[..] == after.pool;
      assert queue == after.queue;
      assert steps == after.steps;
      assert faults == after.faults && hits == after.hits;
      TraceExtend(Fifo, refs, n, states, t);
      states := states + [after];
    }
    TraceUnique(Fifo, refs, n, |refs|, states);
  }

  /** The LRU branch: a fault fills the first empty slot or, when there is
      none, the slot found by `ScanLeastRecent`; every reference, hit or
      fault, then records its index in `lastUsed`. */
  method SimulateLru(refs: seq<int>, frames: array<Option<int>>, init: seq<StepState>)
    returns (steps: seq<StepState>, faults: nat, hits: nat)
    requires frames.Length >= 1 && frames[..] == EmptyFrames(frames.Length)
    requires init == [InitialStep(frames.Length)]
    modifies frames
    ensures var s := Trace(Lru, refs, frames.Length, |refs|)[|refs|];
      frames[..] == s.pool && steps == s.steps && faults == s.faults && hits == s.hits
  {
    ghost var n := frames.Length;
    ghost var states := [Start(n)];
    var lastUsed: map<int, nat> := map[];
    steps, faults, hits := init, 0, 0;
    for timeStep := 0 to |refs|
      invariant IsTrace(Lru, refs, n, states) && |states| == timeStep + 1
      invariant states[timeStep] == Sim(frames[..], [], faults, hits, steps)
      invariant lastUsed == LastUseMap(refs, timeStep)
    {
      ghost var before := states[timeStep];
      var page := refs[timeStep];
      var isPageFault := Some(page) !in frames[..];
      var replacedFrameIndex: Option<int> := None;
      if isPageFault {
        faults := faults + 1;
        var nullIndex := IndexOf(frames[..], None);
        if nullIndex != -1 {
          assert nullIndex == Slot(Lru, refs, timeStep, before);
          frames[nullIndex] := Some(page);
          replacedFrameIndex := Some(nullIndex);
        } else {
          var lruPage := ScanLeastRecent(frames, lastUsed);
          assert lruPage == Slot(Lru, refs, timeStep, before);
          replacedFrameIndex := Some(lruPage);
          frames[lruPage] := Some(page);
        }
      } else {
        hits := hits + 1;
      }
      assert LastUseMap(refs, timeStep + 1) == lastUsed[page := timeStep];
      lastUsed := lastUsed[page := timeStep];
      steps := steps + [Snapshot(frames[..], page, isPageFault, replacedFrameIndex)];
      ghost var after := Tick(Lru, refs, timeStep, before);
      assert frames[..] == after.pool;
      assert steps == after.steps;
      assert faults == after.faults && hits == after.hits;
      TraceExtend(Lru, refs, n, states, timeStep);
      states := states + [after];
    }
    TraceUnique(Lru, refs, n, |refs|, states);
  }

  /** The loop over the slots that finds the least recently used one: the
      key of a slot is `lastUsed[page] || 0`, the best key starts at
      infinity (`None`) and only a strictly smaller key replaces it. */
  method ScanLeastRecent(frames: array<Option<int>>, lastUsed: map<int, nat>) returns (lruPage: nat)
    requires frames.Length >= 1
    ensures lruPage == FirstMin(SlotKeys(frames[..], lastUsed, 0))
    ensures forall j :: 0 <= j < frames.Length ==> SlotKeys(frames[..], lastUsed, 0)[lruPage] <= SlotKeys(frames[..], lastUsed, 0)[j]
  {
    ghost var keys := SlotKeys(frames[..], lastUsed, 0);
    lruPage := 0;
    var lruTime: Option<int> := None;
    for i := 0 to frames.Length
      invariant i == 0 ==> lruTime == None
      invariant i > 0 ==> lruPage < i && lruPage == FirstMin(keys[..i]) && lruTime == Some(keys[lruPage])
    {
      var framePageTime := if frames[i].Some? && frames[i].value in lastUsed then lastUsed[frames[i].value] else 0;
      assert framePageTime == keys[i];
      assert keys[..i + 1][..i] == keys[..i];
      if lruTime.None? || framePageTime < lruTime.value {
        lruTime := Some(framePageTime);
        lruPage := i;
      }
    }
    assert keys[..frames.Length] == keys;
  }

  /** The Optimal branch: a fault fills the first empty slot or, when there
      is none, the slot found by `ScanFarthest` over the next uses that
      `FutureUses` computes. */
  method SimulateOptimal(refs: seq<int>, frames: array<Option<int>>, init: seq<StepState>)
    returns (steps: seq<StepState>, faults: nat, hits: nat)
    requires frames.Length >= 1 && frames[..] == EmptyFrames(frames.Length)
    requires init == [InitialStep(frames.Length)]
    modifies frames
    ensures var s := Trace(Optimal, refs, frames.Length, |refs|)[|refs|];
      frames[..] == s.pool && steps == s.steps && faults == s.faults && hits == s.hits
  {
    ghost var n := frames.Length;
    ghost var states := [Start(n)];
    steps, faults, hits := init, 0, 0;
    for index := 0 to |refs|
      invariant IsTrace(Optimal, refs, n, states) && |states| == index + 1
      invariant states[index] == Sim(frames[..], [], faults, hits, steps)
    {
      ghost var before := states[index];
      var page := refs[index];
      var isPageFault := Some(page) !in frames[..];
      var replacedFrameIndex: Option<int> := None;
      if isPageFault {
        faults := faults + 1;
        var nullIndex := IndexOf(frames[..], None);
        if nullIndex != -1 {
          assert nullIndex == Slot(Optimal, refs, index, before);
          frames[nullIndex] := Some(page);
          replacedFrameIndex := Some(nullIndex);
        } else {
          var victimPage := FarthestVictim(refs, index, frames);
          assert victimPage == Slot(Optimal, refs, index, before);
          replacedFrameIndex := Some(victimPage);
          frames[victimPage] := Some(page);
        }
      } else {
        hits := hits + 1;
      }
      steps := steps + [Snapshot(frames[..], page, isPageFault, replacedFrameIndex)];
      ghost var after := Tick(Optimal, refs, index, before);
      assert frames[..] == after.pool;
      assert steps == after.steps;
      assert faults == after.faults && hits == after.hits;
      TraceExtend(Optimal, refs, n, states, index);
      states := states + [after];
    }
    TraceUnique(Optimal, refs, n, |refs|, states);
  }

  /** The victim search of the Optimal branch on a full pool: the slot whose
      page is next used farthest in the future, never-used-again pages
      counting as farthest and the lowest slot winning a tie. */
  method FarthestVictim(refs: seq<int>, index: nat, frames: array<Option<int>>) returns (victimPage: nat)
    requires index < |refs| && frames.Length >= 1 && None !in frames[..]
    ensures victimPage == FirstMax(NextUseKeys(frames[..], refs, index))
  {
    var futureUse := FutureUses(refs, index, frames);
    forall i | 0 <= i < frames.Length ensures frames[i].Some? && frames[i].value in futureUse {
      assert frames[..][i] == frames[i] && frames[..][i] in frames[..];
      assert Resident(frames[..], frames[i].value);
    }
    victimPage := ScanFarthest(frames, futureUse);
    assert SlotKeys(frames[..], futureUse, -1) == NextUseKeys(frames[..], refs, index);
  }

  /** The `futureUse` record at reference `index`: every resident page starts
      at infinity (|refs|), then the scan over the later references records
      the first later reference to each resident page. */
  method FutureUses(refs: seq<int>, index: nat, frames: array<Option<int>>) returns (futureUse: map<int, nat>)
    requires index < |refs|
    ensures forall p :: p in futureUse <==> Resident(frames[..], p)
    ensures forall p :: p in futureUse ==> futureUse[p] == NextUseFrom(refs, index + 1, p)
  {
    var never := |refs|;
    futureUse := map[];
    for k := 0 to frames.Length
      invariant forall p :: p in futureUse <==> Resident(frames[..k], p)
      invariant forall p :: p in futureUse ==> futureUse[p] == never
    {
      assert frames[..k + 1] == frames[..k] + [frames[k]];
      if frames[k].Some? {
        futureUse := futureUse[frames[k].value := never];
      }
    }
    assert frames[..frames.Length] == frames[..];
    for i := index + 1 to |refs|
      invariant forall p :: p in futureUse <==> Resident(frames[..], p)
      invariant forall p :: p in futureUse ==>
        futureUse[p] == if NextUseFrom(refs, index + 1, p) < i then NextUseFrom(refs, index + 1, p) else never
    {
      var futurePage := refs[i];
      if Some(futurePage) in frames[..] && futureUse[futurePage] == never {
        futureUse := futureUse[futurePage := i];
      }
    }
  }

  /** The loop over the slots that finds the page used farthest in the
      future: `farthestUse` starts at -1 and only a strictly larger next use
      replaces it. */
  method ScanFarthest(frames: array<Option<int>>, futureUse: map<int, nat>) returns (victimPage: nat)
    requires frames.Length >= 1
    requires forall i :: 0 <= i < frames.Length ==> frames[i].Some? && frames[i].value in futureUse
    ensures victimPage == FirstMax(SlotKeys(frames[..], futureUse, -1))
  {
    ghost var keys := SlotKeys(frames[..], futureUse, -1);
    victimPage := 0;
    var farthestUse: int := -1;
    for i := 0 to frames.Length
      invariant i == 0 ==> farthestUse == -1
      invariant i > 0 ==> victimPage < i && victimPage == FirstMax(keys[..i]) && farthestUse == keys[victimPage]
    {
      var frame := frames[i].value;
      assert futureUse[frame] == keys[i];
      assert keys[..i + 1][..i] == keys[..i];
      if futureUse[frame] > farthestUse {
        farthestUse := futureUse[frame];
        victimPage := i;
      }
    }
    assert keys[..frames.Length] == keys;
  }
}
