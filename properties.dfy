/** What the snapshots published by `generateSteps` promise, proved of
    `Engine.Generate` (and so of `Simulator.GenerateSteps`, which computes
    it): their number, the initial snapshot, what each reference does to the
    frames, the totals, and how each policy picks its victim. */
module Properties {
  import opened Wrappers
  import opened Pool
  import opened Policies
  import opened Engine

  /** What one snapshot says about the reference `page` that produced it,
      given the frames `before` it: a fault exactly when the page was not
      resident; a hit leaves every slot alone; a fault writes the page into
      the one slot it reports, the lowest empty slot when there is one; only
      that slot is marked new, and on a hit only the slot holding the page is
      marked hit. */
  ghost predicate StepObeys(before: Frames, page: int, step: StepState) {
    var after := Pages(step);
    var k := step.replacedFrameIndex;
    step.currentPage == page
    && |after| == |before|
    && (step.isPageFault <==> !Resident(before, page))
    && (!step.isPageFault ==> after == before && k == None)
    && (step.isPageFault ==>
          k.Some? && 0 <= k.value < |before| && after == before[k.value := Some(page)]
          && (None in before ==> k.value == IndexOf(before, None)))
    && (forall i :: 0 <= i < |step.frames| ==>
          (step.frames[i].isNew <==> k.Some? && k.value == i)
          && (step.frames[i].isHit <==> !step.isPageFault && after[i] == Some(page)))
  }

  /** The number of snapshots that record a fault. */
  function FaultCount(steps: seq<StepState>): (n: nat)
    ensures n <= |steps|
  {
    if |steps| == 0 then 0
    else FaultCount(steps[..|steps| - 1]) + if steps[|steps| - 1].isPageFault then 1 else 0
  }

  /** The index of the latest snapshot that loaded `page` (a fault on it),
      or -1 when none did. */
  function LoadStep(steps: seq<StepState>, page: int): (r: int)
    ensures -1 <= r < |steps|
    ensures r >= 0 ==> steps[r].isPageFault && steps[r].currentPage == page
    ensures forall j :: r < j < |steps| ==> !(steps[j].isPageFault && steps[j].currentPage == page)
  {
    if |steps| == 0 then -1
    else if steps[|steps| - 1].isPageFault && steps[|steps| - 1].currentPage == page then |steps| - 1
    else LoadStep(steps[..|steps| - 1], page)
  }

  // ---------------------------------------------------------------------
  // One reference

  lemma SnapshotPages(pool: Frames, page: int, isPageFault: bool, replaced: Option<int>)
    ensures Pages(Snapshot(pool, page, isPageFault, replaced)) == pool
  {
  }

  /** A reference appends one snapshot, which shows the new frames, and
      counts the reference as a fault or as a hit. */
  lemma TickAppends(alg: Algorithm, refs: seq<int>, t: nat, s: Sim)
    requires t < |refs|
    ensures var r := Tick(alg, refs, t, s);
      r.steps == s.steps + [r.steps[|s.steps|]]
      && Pages(r.steps[|s.steps|]) == r.pool
      && r.faults == s.faults + (if r.steps[|s.steps|].isPageFault then 1 else 0)
      && r.hits == s.hits + (if r.steps[|s.steps|].isPageFault then 0 else 1)
  {
    var page := refs[t];
    if Resident(s.pool, page) {
      SnapshotPages(s.pool, page, false, None);
    } else {
      var k := Slot(alg, refs, t, s);
      var pool := if 0 <= k < |s.pool| then s.pool[k := Some(page)] else s.pool;
      SnapshotPages(pool, page, true, Some(k));
    }
  }

  /** The snapshot a reference appends obeys `StepObeys`. */
  lemma TickObeys(alg: Algorithm, refs: seq<int>, t: nat, s: Sim)
    requires t < |refs| && Valid(alg, s)
    ensures StepObeys(s.pool, refs[t], Tick(alg, refs, t, s).steps[|s.steps|])
  {
    var page := refs[t];
    if Resident(s.pool, page) {
      SnapshotPages(s.pool, page, false, None);
    } else {
      SlotInRange(alg, refs, t, s);
      var k := Slot(alg, refs, t, s);
      SnapshotPages(s.pool[k := Some(page)], page, true, Some(k));
      if None in s.pool {
        if alg == Fifo {
          assert Filled(s.pool) < |s.pool|;
        }
        assert k == IndexOf(s.pool, None);
      }
    }
  }

  // ---------------------------------------------------------------------
  // The whole run

  /** After `j` references a run has recorded `j + 1` snapshots, starting
      with the empty one and ending with the current frames, and has counted
      each reference once, as a fault or as a hit. */
  lemma {:induction false} TraceShape(alg: Algorithm, refs: seq<int>, frameCount: nat, states: seq<Sim>, j: nat)
    requires IsTrace(alg, refs, frameCount, states) && j < |states|
    ensures var s := states[j];
      |s.steps| == j + 1 && s.steps[0] == InitialStep(frameCount)
      && Pages(s.steps[j]) == s.pool
      && s.faults == FaultCount(s.steps) && s.hits == j - s.faults
  {
    if j == 0 {
      var s := Start(frameCount);
      assert Pages(s.steps[0]) == s.pool;
      assert FaultCount(s.steps) == FaultCount([]) + 0;
    } else {
      TraceShape(alg, refs, frameCount, states, j - 1);
      ShapeStep(alg, refs, frameCount, states, j);
    }
  }

  /** One reference appends one snapshot, showing the new frames, and
      counts one fault or one hit. */
  lemma ShapeStep(alg: Algorithm, refs: seq<int>, frameCount: nat, states: seq<Sim>, j: nat)
    requires IsTrace(alg, refs, frameCount, states) && 0 < j < |states|
    requires var s := states[j - 1];
      |s.steps| == j && s.steps[0] == InitialStep(frameCount)
      && s.faults == FaultCount(s.steps) && s.hits == j - 1 - s.faults
    ensures var s := states[j];
      |s.steps| == j + 1 && s.steps[0] == InitialStep(frameCount)
      && Pages(s.steps[j]) == s.pool
      && s.faults == FaultCount(s.steps) && s.hits == j - s.faults
  {
    var s := states[j - 1];
    TraceNext(alg, refs, frameCount, states, j - 1);
    TickAppends(alg, refs, j - 1, s);
    assert states[j].steps[..|states[j].steps| - 1] == s.steps;
  }

  /** Snapshots are never changed once recorded: snapshot `i` stays what it
      was when reference `i` had just been processed. */
  lemma {:induction false} TracePrefix(alg: Algorithm, refs: seq<int>, frameCount: nat, states: seq<Sim>, i: nat, j: nat)
    requires IsTrace(alg, refs, frameCount, states) && i <= j < |states|
    ensures |states[i].steps| == i + 1 && |states[j].steps| == j + 1
    ensures states[j].steps[i] == states[i].steps[i]
  {
    TraceShape(alg, refs, frameCount, states, i);
    TraceShape(alg, refs, frameCount, states, j);
    if i < j {
      TracePrefix(alg, refs, frameCount, states, i, j - 1);
      TraceNext(alg, refs, frameCount, states, j - 1);
      TickAppends(alg, refs, j - 1, states[j - 1]);
    }
  }

  /** Snapshot `i` of a finished run and the state after `i` references:
      the snapshot shows that state's frames. */
  lemma TraceStep(alg: Algorithm, refs: seq<int>, frameCount: nat, states: seq<Sim>, i: nat)
    requires IsTrace(alg, refs, frameCount, states) && i < |states|
    ensures var last := states[|states| - 1];
      |states[i].steps| == i + 1 && |last.steps| == |states| && last.steps[i] == states[i].steps[i]
      && Pages(last.steps[i]) == states[i].pool
  {
    TracePrefix(alg, refs, frameCount, states, i, |states| - 1);
    TraceShape(alg, refs, frameCount, states, i);
  }

  /** The first `i + 1` snapshots of a finished run are the snapshots
      recorded after `i` references. */
  lemma TraceHistory(alg: Algorithm, refs: seq<int>, frameCount: nat, states: seq<Sim>, i: nat)
    requires IsTrace(alg, refs, frameCount, states) && i < |states|
    ensures var last := states[|states| - 1];
      |last.steps| == |states| && last.steps[..i + 1] == states[i].steps
  {
    var last := states[|states| - 1];
    TraceShape(alg, refs, frameCount, states, i);
    TraceStep(alg, refs, frameCount, states, 0);
    forall m | 0 <= m <= i ensures last.steps[m] == states[i].steps[m] {
      TracePrefix(alg, refs, frameCount, states, m, i);
      TracePrefix(alg, refs, frameCount, states, m, |states| - 1);
    }
  }

  /** The snapshot for reference `i` obeys `StepObeys` with respect to the
      snapshot before it. */
  lemma TracePair(alg: Algorithm, refs: seq<int>, frameCount: nat, states: seq<Sim>, i: nat)
    requires 1 <= frameCount && IsTrace(alg, refs, frameCount, states) && i < |states| - 1
    ensures var steps := states[|states| - 1].steps;
      |steps| == |states| && StepObeys(Pages(steps[i]), refs[i], steps[i + 1])
  {
    TraceStep(alg, refs, frameCount, states, i);
    TraceStep(alg, refs, frameCount, states, i + 1);
    TraceShape(alg, refs, frameCount, states, i);
    TraceValid(alg, refs, frameCount, states, i);
    TraceNext(alg, refs, frameCount, states, i);
    TickObeys(alg, refs, i, states[i]);
  }

  // ---------------------------------------------------------------------
  // The published result

  /** The run behind `Generate`, as a trace. */
  lemma GenerateTrace(refs: seq<int>, frameCount: int, alg: Algorithm)
    requires |refs| > 0 && frameCount > 0
    ensures var states := Trace(alg, refs, frameCount, |refs|);
      IsTrace(alg, refs, frameCount, states) && |states| == |refs| + 1
      && Generate(refs, frameCount, alg).value.steps == states[|refs|].steps
  {
    TraceIsTrace(alg, refs, frameCount, |refs|);
  }

  /** Nothing is generated for an empty reference list or a frame count that
      is not positive. Otherwise there is one snapshot per reference plus
      the initial one, which shows every slot empty and not marked, page -1,
      no fault and no replaced slot; and faults and hits add up to the
      number of references. */
  lemma GenerateShape(refs: seq<int>, frameCount: int, alg: Algorithm)
    ensures var r := Generate(refs, frameCount, alg);
      (r.None? <==> |refs| == 0 || frameCount <= 0)
      && (r.Some? ==>
            |r.value.steps| == |refs| + 1
            && r.value.faults + r.value.hits == |refs|
            && r.value.faults == FaultCount(r.value.steps)
            && var first := r.value.steps[0];
               |first.frames| == frameCount
               && (forall j :: 0 <= j < frameCount ==> first.frames[j] == FrameState(None, false, false))
               && first.currentPage == -1 && !first.isPageFault && first.replacedFrameIndex == None)
  {
    if |refs| > 0 && frameCount > 0 {
      GenerateTrace(refs, frameCount, alg);
      TraceShape(alg, refs, frameCount, Trace(alg, refs, frameCount, |refs|), |refs|);
    }
  }

  /** Every snapshot has `frameCount` slots, with no page in two of them and
      the empty slots after the filled ones. */
  lemma GenerateFrames(refs: seq<int>, frameCount: int, alg: Algorithm)
    requires |refs| > 0 && frameCount > 0
    ensures var steps := Generate(refs, frameCount, alg).value.steps;
      |steps| == |refs| + 1
      && forall i :: 0 <= i <= |refs| ==>
           |Pages(steps[i])| == frameCount && Distinct(Pages(steps[i])) && Packed(Pages(steps[i]))
  {
    GenerateTrace(refs, frameCount, alg);
    var states := Trace(alg, refs, frameCount, |refs|);
    TraceStep(alg, refs, frameCount, states, 0);
    forall i | 0 <= i <= |refs|
      ensures |Pages(states[|refs|].steps[i])| == frameCount
        && Distinct(Pages(states[|refs|].steps[i])) && Packed(Pages(states[|refs|].steps[i]))
    {
      TraceStep(alg, refs, frameCount, states, i);
      TraceValid(alg, refs, frameCount, states, i);
    }
  }

  /** Every snapshot after the first obeys `StepObeys` for its reference and
      the snapshot before it. */
  lemma GenerateSteps(refs: seq<int>, frameCount: int, alg: Algorithm)
    requires |refs| > 0 && frameCount > 0
    ensures var steps := Generate(refs, frameCount, alg).value.steps;
      |steps| == |refs| + 1
      && forall i :: 0 <= i < |refs| ==> StepObeys(Pages(steps[i]), refs[i], steps[i + 1])
  {
    GenerateTrace(refs, frameCount, alg);
    var states := Trace(alg, refs, frameCount, |refs|);
    TraceStep(alg, refs, frameCount, states, 0);
    forall i | 0 <= i < |refs|
      ensures StepObeys(Pages(states[|refs|].steps[i]), refs[i], states[|refs|].steps[i + 1])
    {
      TracePair(alg, refs, frameCount, states, i);
    }
  }

  /** After any reference its page is resident. */
  lemma ObeysLeavesResident(before: Frames, page: int, step: StepState)
    requires StepObeys(before, page, step)
    ensures Resident(Pages(step), page)
  {
    if step.isPageFault {
      assert Pages(step)[step.replacedFrameIndex.value] == Some(page);
    }
  }

  /** A reference to the page referenced just before it is always a hit. */
  lemma GenerateRepeatIsHit(refs: seq<int>, frameCount: int, alg: Algorithm)
    requires |refs| > 0 && frameCount > 0
    ensures var steps := Generate(refs, frameCount, alg).value.steps;
      |steps| == |refs| + 1
      && forall i :: 0 < i < |refs| && refs[i - 1] == refs[i] ==> !steps[i + 1].isPageFault
  {
    GenerateSteps(refs, frameCount, alg);
    var steps := Generate(refs, frameCount, alg).value.steps;
    forall i | 0 < i < |refs| && refs[i - 1] == refs[i] ensures !steps[i + 1].isPageFault {
      ObeysLeavesResident(Pages(steps[i - 1]), refs[i - 1], steps[i]);
    }
  }
}
