/** How each policy picks the slot a fault on a full pool overwrites, proved
    of every fault of a run: FIFO evicts the page loaded longest ago, LRU the
    page whose latest reference is oldest, and Optimal the page whose next
    reference is farthest away. */
module Victims {
  import opened Wrappers
  import opened Pool
  import opened Policies
  import opened Engine
  import opened Properties

  /** A fault appends a snapshot that reports the slot `Slot` picks. */
  lemma TickReplaces(alg: Algorithm, refs: seq<int>, t: nat, s: Sim)
    requires t < |refs| && !Resident(s.pool, refs[t])
    ensures var r := Tick(alg, refs, t, s);
      |r.steps| == |s.steps| + 1 && r.steps[|s.steps|].replacedFrameIndex == Some(Slot(alg, refs, t, s))
  {
  }

  // ---------------------------------------------------------------------
  // Every policy: what is resident was referenced

  /** A page resident after reference `t` is `refs[t]` or was resident
      before it. */
  lemma TickResident(alg: Algorithm, refs: seq<int>, t: nat, s: Sim, p: int)
    requires t < |refs| && Resident(Tick(alg, refs, t, s).pool, p)
    ensures p == refs[t] || Resident(s.pool, p)
  {
    if !Resident(s.pool, refs[t]) {
      var k := Slot(alg, refs, t, s);
      if 0 <= k < |s.pool| {
        ResidentAfterWrite(s.pool, k, refs[t], p);
      }
    }
  }

  /** Every page resident after `j` references is one of them. */
  lemma {:induction false} TraceReferenced(alg: Algorithm, refs: seq<int>, frameCount: nat, states: seq<Sim>, j: nat)
    requires IsTrace(alg, refs, frameCount, states) && j < |states|
    ensures forall p :: Resident(states[j].pool, p) ==> p in refs[..j]
  {
    if j > 0 {
      TraceReferenced(alg, refs, frameCount, states, j - 1);
      TraceNext(alg, refs, frameCount, states, j - 1);
      forall p | Resident(states[j].pool, p) ensures p in refs[..j] {
        TickResident(alg, refs, j - 1, states[j - 1], p);
        if p == refs[j - 1] {
          assert refs[..j][j - 1] == p;
        } else {
          var m :| 0 <= m < j - 1 && refs[..j - 1][m] == p;
          assert refs[..j][m] == p;
        }
      }
    }
  }

  // ---------------------------------------------------------------------
  // FIFO

  lemma LoadStepAppend(steps: seq<StepState>, x: StepState, p: int)
    ensures LoadStep(steps + [x], p) == if x.isPageFault && x.currentPage == p then |steps| else LoadStep(steps, p)
  {
    assert (steps + [x])[..|steps|] == steps;
  }

  /** The FIFO queue lists pages in the order their latest loads happened. */
  ghost predicate LoadOrdered(queue: seq<int>, steps: seq<StepState>) {
    forall a, b :: 0 <= a < b < |queue| ==> 0 <= LoadStep(steps, queue[a]) < LoadStep(steps, queue[b])
  }

  /** The queue of a state is in load order, and every queued page has
      been loaded. */
  ghost predicate InLoadOrder(s: Sim) {
    LoadOrdered(s.queue, s.steps) && forall q :: q in s.queue ==> LoadStep(s.steps, q) >= 0
  }

  /** Loads of the queued pages that stay put keep the queue in order, and
      a page loaded after all of them can go on its tail, after the head has
      or has not been dropped. */
  lemma PushOrdered(queue: seq<int>, kept: seq<int>, page: int, before: seq<StepState>, after: seq<StepState>)
    requires LoadOrdered(queue, before)
    requires kept == queue || (|queue| > 0 && kept == queue[1..])
    requires 0 <= LoadStep(after, page)
    requires forall q :: q in queue ==> 0 <= LoadStep(before, q) < LoadStep(after, page)
    requires forall q :: q in queue ==> LoadStep(after, q) == LoadStep(before, q)
    ensures LoadOrdered(kept + [page], after)
    ensures forall q :: q in kept + [page] ==> LoadStep(after, q) >= 0
  {
    var r := kept + [page];
    forall a, b | 0 <= a < b < |r| ensures 0 <= LoadStep(after, r[a]) < LoadStep(after, r[b]) {
      assert r[a] == kept[a] && kept[a] in queue;
      if b < |kept| {
        assert r[b] == kept[b] && kept[b] in queue;
        if kept != queue {
          assert kept[a] == queue[a + 1] && kept[b] == queue[b + 1];
        }
      }
    }
    forall q | q in r ensures LoadStep(after, q) >= 0 {
      if q != page {
        var m :| 0 <= m < |r| && r[m] == q;
        assert kept[m] == q;
        if kept != queue {
          assert queue[m + 1] == q;
        }
      }
    }
  }

  /** A reference keeps the FIFO queue in load order: a hit changes neither
      the queue nor any load, and a fault pushes the page it loads, now the
      latest load of all, onto the tail. */
  lemma FifoTickOrder(refs: seq<int>, t: nat, s: Sim)
    requires t < |refs| && Valid(Fifo, s) && InLoadOrder(s)
    ensures InLoadOrder(Tick(Fifo, refs, t, s))
  {
    var page := refs[t];
    var r := Tick(Fifo, refs, t, s);
    TickAppends(Fifo, refs, t, s);
    var x := r.steps[|s.steps|];
    assert r.steps == s.steps + [x];
    forall q | q in s.queue ensures LoadStep(r.steps, q) == LoadStep(s.steps, q) {
      LoadStepAppend(s.steps, x, q);
    }
    if Resident(s.pool, page) {
      assert r.queue == s.queue;
    } else {
      LoadStepAppend(s.steps, x, page);
      var kept := if |s.queue| == |s.pool| && |s.queue| > 0 then s.queue[1..] else s.queue;
      assert r.queue == kept + [page];
      PushOrdered(s.queue, kept, page, s.steps, r.steps);
    }
  }

  /** One reference of a FIFO run keeps the queue in load order. */
  lemma FifoOrderStep(refs: seq<int>, frameCount: nat, states: seq<Sim>, j: nat)
    requires 1 <= frameCount && IsTrace(Fifo, refs, frameCount, states) && 0 < j < |states|
    requires InLoadOrder(states[j - 1])
    ensures InLoadOrder(states[j])
  {
    TraceValid(Fifo, refs, frameCount, states, j - 1);
    TraceNext(Fifo, refs, frameCount, states, j - 1);
    FifoTickOrder(refs, j - 1, states[j - 1]);
  }

  /** Throughout a FIFO run the queue is in load order. */
  lemma {:induction false} FifoOrder(refs: seq<int>, frameCount: nat, states: seq<Sim>, j: nat)
    requires 1 <= frameCount && IsTrace(Fifo, refs, frameCount, states) && j < |states|
    ensures InLoadOrder(states[j])
  {
    if j > 0 {
      FifoOrder(refs, frameCount, states, j - 1);
      FifoOrderStep(refs, frameCount, states, j);
    }
  }

  /** FIFO on a full pool evicts the page whose latest load is the oldest:
      every other slot holds a page loaded later. */
  lemma FifoEvictsOldest(refs: seq<int>, t: nat, s: Sim)
    requires t < |refs| && Valid(Fifo, s) && LoadOrdered(s.queue, s.steps)
    requires !Resident(s.pool, refs[t]) && None !in s.pool
    ensures var k := Slot(Fifo, refs, t, s);
      0 <= k < |s.pool| && s.pool[k].Some?
      && forall i :: 0 <= i < |s.pool| && i != k ==>
           s.pool[i].Some? && LoadStep(s.steps, s.pool[k].value) < LoadStep(s.steps, s.pool[i].value)
  {
    SlotInRange(Fifo, refs, t, s);
    var k := Slot(Fifo, refs, t, s);
    assert |s.queue| == |s.pool|;
    assert s.pool[k] == Some(s.queue[0]);
    forall i | 0 <= i < |s.pool| && i != k
      ensures s.pool[i].Some? && LoadStep(s.steps, s.queue[0]) < LoadStep(s.steps, s.pool[i].value)
    {
      assert s.pool[i] in s.pool;
      var w := s.pool[i].value;
      assert Resident(s.pool, w);
      var b :| 0 <= b < |s.queue| && s.queue[b] == w;
      assert b != 0;
    }
  }

  // ---------------------------------------------------------------------
  // LRU

  /** LRU on a full pool evicts the page whose latest reference is the
      oldest: every resident page has been referenced, their latest
      references are distinct, and every other slot's is strictly later. */
  lemma LruEvictsLeastRecent(refs: seq<int>, t: nat, s: Sim)
    requires t < |refs| && Valid(Lru, s)
    requires forall p :: Resident(s.pool, p) ==> p in refs[..t]
    requires !Resident(s.pool, refs[t]) && None !in s.pool
    ensures var k := Slot(Lru, refs, t, s);
      var lastUsed := LastUseMap(refs, t);
      0 <= k < |s.pool| && s.pool[k].Some? && s.pool[k].value in lastUsed
      && forall i :: 0 <= i < |s.pool| && i != k ==>
           s.pool[i].Some? && s.pool[i].value in lastUsed
           && lastUsed[s.pool[k].value] < lastUsed[s.pool[i].value]
  {
    SlotInRange(Lru, refs, t, s);
    var k := Slot(Lru, refs, t, s);
    var lastUsed := LastUseMap(refs, t);
    var keys := LruKeys(s.pool, refs, t);
    assert k == FirstMin(keys);
    forall i | 0 <= i < |s.pool|
      ensures s.pool[i].Some? && s.pool[i].value in lastUsed && keys[i] == lastUsed[s.pool[i].value]
    {
      assert s.pool[i] in s.pool;
      assert Resident(s.pool, s.pool[i].value);
    }
    forall i | 0 <= i < |s.pool| && i != k
      ensures lastUsed[s.pool[k].value] < lastUsed[s.pool[i].value]
    {
      var pk, pi := s.pool[k].value, s.pool[i].value;
      assert keys[k] == lastUsed[pk] && keys[i] == lastUsed[pi];
      assert refs[lastUsed[pk]] == pk && refs[lastUsed[pi]] == pi;
      assert pk != pi by {
        if k < i { assert s.pool[k].Some?; } else { assert s.pool[i].Some?; }
      }
      assert lastUsed[pk] != lastUsed[pi];
      assert keys[k] <= keys[i];
    }
  }

  // ---------------------------------------------------------------------
  // Optimal

  /** Optimal on a full pool evicts the page whose next reference after `t`
      is farthest away (|refs| meaning never): no other slot's page is next
      used later, and one whose next use is as far is never used again and
      sits in a higher slot. */
  lemma OptimalEvictsFarthest(refs: seq<int>, t: nat, s: Sim)
    requires t < |refs| && Valid(Optimal, s)
    requires !Resident(s.pool, refs[t]) && None !in s.pool
    ensures var k := Slot(Optimal, refs, t, s);
      0 <= k < |s.pool| && s.pool[k].Some?
      && var farthest := NextUseFrom(refs, t + 1, s.pool[k].value);
         forall i :: 0 <= i < |s.pool| && i != k ==>
           s.pool[i].Some?
           && NextUseFrom(refs, t + 1, s.pool[i].value) <= farthest
           && (NextUseFrom(refs, t + 1, s.pool[i].value) == farthest ==> farthest == |refs| && k < i)
  {
    SlotInRange(Optimal, refs, t, s);
    var k := Slot(Optimal, refs, t, s);
    var keys := NextUseKeys(s.pool, refs, t);
    assert k == FirstMax(keys);
    forall i | 0 <= i < |s.pool| && i != k
      ensures s.pool[i].Some? && keys[i] == NextUseFrom(refs, t + 1, s.pool[i].value)
      ensures keys[i] <= keys[k] && (keys[i] == keys[k] ==> keys[k] == |refs| && k < i)
    {
      assert s.pool[i] in s.pool && s.pool[k] in s.pool;
      if keys[k] < |refs| {
        assert refs[keys[k]] == s.pool[k].value;
        assert keys[i] < |refs| ==> refs[keys[i]] == s.pool[i].value;
      }
    }
  }

  // ---------------------------------------------------------------------
  // The published snapshots

  /** A snapshot that reports a fault on a full pool, read back as the
      state after `i` references and the slot its policy picked. */
  lemma FullFault(alg: Algorithm, refs: seq<int>, frameCount: nat, states: seq<Sim>, i: nat)
    requires 1 <= frameCount && IsTrace(alg, refs, frameCount, states) && i < |states| - 1
    requires var steps := states[|states| - 1].steps;
      |steps| == |states| && steps[i + 1].isPageFault && None !in Pages(steps[i])
    ensures var steps := states[|states| - 1].steps;
      Pages(steps[i]) == states[i].pool && steps[..i + 1] == states[i].steps
      && !Resident(states[i].pool, refs[i]) && None !in states[i].pool
      && steps[i + 1].replacedFrameIndex == Some(Slot(alg, refs, i, states[i]))
      && Valid(alg, states[i])
  {
    TracePair(alg, refs, frameCount, states, i);
    TraceStep(alg, refs, frameCount, states, i);
    TraceStep(alg, refs, frameCount, states, i + 1);
    TraceHistory(alg, refs, frameCount, states, i);
    TraceValid(alg, refs, frameCount, states, i);
    TraceNext(alg, refs, frameCount, states, i);
    TickReplaces(alg, refs, i, states[i]);
  }

  /** Snapshot `i + 1`, if it reports a fault on the full frames of
      snapshot `i`, overwrote the slot whose page was loaded longest ago:
      every other page's latest load is later. */
  ghost predicate EvictsEarliestLoad(steps: seq<StepState>, i: nat)
    requires i + 1 < |steps|
  {
    var before := Pages(steps[i]);
    var k := steps[i + 1].replacedFrameIndex;
    steps[i + 1].isPageFault && None !in before ==>
      k.Some? && 0 <= k.value < |before| && before[k.value].Some?
      && forall j :: 0 <= j < |before| && j != k.value ==>
           before[j].Some?
           && LoadStep(steps[..i + 1], before[k.value].value) < LoadStep(steps[..i + 1], before[j].value)
  }

  /** Snapshot `i + 1`, if it reports a fault on the full frames of
      snapshot `i`, overwrote the slot whose page's latest reference before
      `refs[i]` is the oldest: every other page's is strictly later. */
  ghost predicate EvictsLeastRecent(refs: seq<int>, steps: seq<StepState>, i: nat)
    requires i < |refs| && i + 1 < |steps|
  {
    var before := Pages(steps[i]);
    var k := steps[i + 1].replacedFrameIndex;
    var lastUsed := LastUseMap(refs, i);
    steps[i + 1].isPageFault && None !in before ==>
      k.Some? && 0 <= k.value < |before| && before[k.value].Some? && before[k.value].value in lastUsed
      && forall j :: 0 <= j < |before| && j != k.value ==>
           before[j].Some? && before[j].value in lastUsed
           && lastUsed[before[k.value].value] < lastUsed[before[j].value]
  }

  /** Snapshot `i + 1`, if it reports a fault on the full frames of
      snapshot `i`, overwrote the slot whose page is next referenced after
      `refs[i]` farthest away (|refs| meaning never again); a page next used
      as far is never used again either and sits in a higher slot. */
  ghost predicate EvictsFarthest(refs: seq<int>, steps: seq<StepState>, i: nat)
    requires i < |refs| && i + 1 < |steps|
  {
    var before := Pages(steps[i]);
    var k := steps[i + 1].replacedFrameIndex;
    steps[i + 1].isPageFault && None !in before ==>
      k.Some? && 0 <= k.value < |before| && before[k.value].Some?
      && forall j :: 0 <= j < |before| && j != k.value ==>
           before[j].Some?
           && NextUseFrom(refs, i + 1, before[j].value) <= NextUseFrom(refs, i + 1, before[k.value].value)
           && (NextUseFrom(refs, i + 1, before[j].value) == NextUseFrom(refs, i + 1, before[k.value].value)
               ==> NextUseFrom(refs, i + 1, before[k.value].value) == |refs| && k.value < j)
  }

  /** FIFO, as published: every fault on a full pool evicts the page loaded
      longest ago. */
  lemma GenerateFifoVictims(refs: seq<int>, frameCount: int)
    requires |refs| > 0 && frameCount > 0
    ensures var steps := Generate(refs, frameCount, Fifo).value.steps;
      |steps| == |refs| + 1 && forall i :: 0 <= i < |refs| ==> EvictsEarliestLoad(steps, i)
  {
    GenerateTrace(refs, frameCount, Fifo);
    var states := Trace(Fifo, refs, frameCount, |refs|);
    TraceStep(Fifo, refs, frameCount, states, 0);
    forall i | 0 <= i < |refs| ensures EvictsEarliestLoad(states[|refs|].steps, i) {
      var steps := states[|refs|].steps;
      if steps[i + 1].isPageFault && None !in Pages(steps[i]) {
        FullFault(Fifo, refs, frameCount, states, i);
        FifoOrder(refs, frameCount, states, i);
        FifoEvictsOldest(refs, i, states[i]);
      }
    }
  }

  /** LRU, as published: every fault on a full pool evicts the page whose
      latest reference is the oldest. */
  lemma GenerateLruVictims(refs: seq<int>, frameCount: int)
    requires |refs| > 0 && frameCount > 0
    ensures var steps := Generate(refs, frameCount, Lru).value.steps;
      |steps| == |refs| + 1 && forall i :: 0 <= i < |refs| ==> EvictsLeastRecent(refs, steps, i)
  {
    GenerateTrace(refs, frameCount, Lru);
    var states := Trace(Lru, refs, frameCount, |refs|);
    TraceStep(Lru, refs, frameCount, states, 0);
    forall i | 0 <= i < |refs| ensures EvictsLeastRecent(refs, states[|refs|].steps, i) {
      var steps := states[|refs|].steps;
      if steps[i + 1].isPageFault && None !in Pages(steps[i]) {
        FullFault(Lru, refs, frameCount, states, i);
        TraceReferenced(Lru, refs, frameCount, states, i);
        LruEvictsLeastRecent(refs, i, states[i]);
      }
    }
  }

  /** Optimal, as published: every fault on a full pool evicts the page
      whose next reference is farthest away. */
  lemma GenerateOptimalVictims(refs: seq<int>, frameCount: int)
    requires |refs| > 0 && frameCount > 0
    ensures var steps := Generate(refs, frameCount, Optimal).value.steps;
      |steps| == |refs| + 1 && forall i :: 0 <= i < |refs| ==> EvictsFarthest(refs, steps, i)
  {
    GenerateTrace(refs, frameCount, Optimal);
    var states := Trace(Optimal, refs, frameCount, |refs|);
    TraceStep(Optimal, refs, frameCount, states, 0);
    forall i | 0 <= i < |refs| ensures EvictsFarthest(refs, states[|refs|].steps, i) {
      var steps := states[|refs|].steps;
      if steps[i + 1].isPageFault && None !in Pages(steps[i]) {
        FullFault(Optimal, refs, frameCount, states, i);
        OptimalEvictsFarthest(refs, i, states[i]);
      }
    }
  }
}
