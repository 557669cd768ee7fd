/** A small reference string run through `generateSteps` by hand, on which
    the three policies part ways: `1 2 3 1` with two frames. */
module Scenarios {
  import opened Wrappers
  import opened Pool
  import opened Policies
  import opened Engine

  const Refs: seq<int> := [1, 2, 3, 1]

  /** The run over `Refs` with two frames: its states, one `Tick` apart. */
  lemma RunOf(alg: Algorithm) returns (states: seq<Sim>)
    ensures |states| == 5 && states == Trace(alg, Refs, 2, 4) && states[0] == Start(2)
    ensures forall i :: 0 <= i < 4 ==> states[i + 1] == Tick(alg, Refs, i, states[i])
  {
    TraceIsTrace(alg, Refs, 2, 0);
    states := Trace(alg, Refs, 2, 0);
    for t := 0 to 4
      invariant |states| == t + 1 && IsTrace(alg, Refs, 2, states) && states[0] == Start(2)
      invariant forall i :: 0 <= i < t ==> states[i + 1] == Tick(alg, Refs, i, states[i])
    {
      TraceExtend(alg, Refs, 2, states, t);
      states := states + [Tick(alg, Refs, t, states[t])];
    }
    TraceUnique(alg, Refs, 2, 4, states);
  }

  /** A fault on `Refs[t]` while a slot is empty fills the first empty slot
      (FIFO: its queue is not yet full) and appends the page to the queue. */
  lemma Fill(alg: Algorithm, t: nat, s: Sim, e: nat)
    requires t < |Refs| && !Resident(s.pool, Refs[t]) && IndexOf(s.pool, None) == e
    requires alg == Fifo ==> |s.queue| < |s.pool|
    ensures var n := Tick(alg, Refs, t, s);
      n.pool == s.pool[e := Some(Refs[t])] && n.faults == s.faults + 1 && n.hits == s.hits
      && n.queue == if alg == Fifo then s.queue + [Refs[t]] else s.queue
  {
  }

  /** A fault with every slot full overwrites slot `k`, the one `Slot`
      picks; FIFO also moves its queue on. */
  lemma Evict(alg: Algorithm, t: nat, s: Sim, k: nat)
    requires t < |Refs| && !Resident(s.pool, Refs[t]) && k < |s.pool| && Slot(alg, Refs, t, s) == k
    requires alg == Fifo ==> |s.queue| == |s.pool|
    ensures var n := Tick(alg, Refs, t, s);
      n.pool == s.pool[k := Some(Refs[t])] && n.faults == s.faults + 1 && n.hits == s.hits
      && n.queue == if alg == Fifo then s.queue[1..] + [Refs[t]] else s.queue
  {
  }

  /** A reference to a resident page counts a hit and changes no slot. */
  lemma Hit(alg: Algorithm, t: nat, s: Sim)
    requires t < |Refs| && Resident(s.pool, Refs[t])
    ensures var n := Tick(alg, Refs, t, s);
      n.pool == s.pool && n.faults == s.faults && n.hits == s.hits + 1
  {
  }

  /** The first two references fill both slots under every policy. */
  lemma Warmup(alg: Algorithm, states: seq<Sim>)
    requires |states| == 5 && states[0] == Start(2)
    requires states[1] == Tick(alg, Refs, 0, states[0]) && states[2] == Tick(alg, Refs, 1, states[1])
    ensures states[2].pool == [Some(1), Some(2)] && states[2].faults == 2 && states[2].hits == 0
    ensures alg == Fifo ==> states[2].queue == [1, 2]
  {
    assert states[0].pool == [None, None] && states[0].queue == [];
    Fill(alg, 0, states[0], 0);
    assert states[1].pool == [Some(1), None];
    assert IndexOf(states[1].pool, None) == 1;
    Fill(alg, 1, states[1], 1);
  }

  /** FIFO from full frames `[1, 2]` with queue `[1, 2]`: `3` evicts `1`,
      loaded first, and the final `1` evicts `2`. */
  lemma FifoTail(s2: Sim)
    requires s2.pool == [Some(1), Some(2)] && s2.queue == [1, 2]
    ensures var s4 := Tick(Fifo, Refs, 3, Tick(Fifo, Refs, 2, s2));
      s4.faults == s2.faults + 2 && s4.hits == s2.hits
  {
    var s3 := Tick(Fifo, Refs, 2, s2);
    assert IndexOf(s2.pool, Some(1)) == 0;
    Evict(Fifo, 2, s2, 0);
    assert s3.pool == [Some(3), Some(2)] && s3.queue == [2, 3];
    assert IndexOf(s3.pool, Some(2)) == 1;
    Evict(Fifo, 3, s3, 1);
  }

  /** The `lastUsed` record at the two LRU evictions. */
  lemma LastUsesAt()
    ensures var m := LastUseMap(Refs, 2); 1 in m && 2 in m && m[1] == 0 && m[2] == 1
    ensures var m := LastUseMap(Refs, 3); 2 in m && 3 in m && m[2] == 1 && m[3] == 2
  {
    assert Refs[..2] == [1, 2] && Refs[..3] == [1, 2, 3];
  }

  /** The LRU keys (`lastUsed` of each slot) at the two evictions. */
  lemma LruKeysAt()
    ensures LruKeys([Some(1), Some(2)], Refs, 2) == [0, 1]
    ensures LruKeys([Some(3), Some(2)], Refs, 3) == [2, 1]
  {
    LastUsesAt();
  }

  /** LRU from full frames `[1, 2]`: `3` evicts `1`, used before `2`, and the
      final `1` evicts `2`, used before `3`. */
  lemma LruTail(s2: Sim)
    requires s2.pool == [Some(1), Some(2)] && s2.queue == []
    ensures var s4 := Tick(Lru, Refs, 3, Tick(Lru, Refs, 2, s2));
      s4.faults == s2.faults + 2 && s4.hits == s2.hits
  {
    var s3 := Tick(Lru, Refs, 2, s2);
    assert Slot(Lru, Refs, 2, s2) == 0 by {
      LruKeysAt();
    }
    Evict(Lru, 2, s2, 0);
    LruLast(s3);
  }

  lemma LruLast(s3: Sim)
    requires s3.pool == [Some(3), Some(2)] && s3.queue == []
    ensures var s4 := Tick(Lru, Refs, 3, s3); s4.faults == s3.faults + 1 && s4.hits == s3.hits
  {
    LruSlotLast(s3);
    Evict(Lru, 3, s3, 1);
  }

  /** The final `1` evicts `2`, whose latest use comes before that of `3`. */
  lemma LruSlotLast(s3: Sim)
    requires s3.pool == [Some(3), Some(2)]
    ensures Slot(Lru, Refs, 3, s3) == 1
  {
    LruKeysAt();
    assert IndexOf(s3.pool, None) == -1;
    assert FirstMin([2, 1]) == 1;
  }

  /** Optimal from full frames `[1, 2]`: `3` evicts `2`, never used again,
      rather than `1`, used next; the final `1` is a hit. */
  lemma OptimalTail(s2: Sim)
    requires s2.pool == [Some(1), Some(2)] && s2.queue == []
    ensures var s4 := Tick(Optimal, Refs, 3, Tick(Optimal, Refs, 2, s2));
      s4.faults == s2.faults + 1 && s4.hits == s2.hits + 1
  {
    var s3 := Tick(Optimal, Refs, 2, s2);
    assert NextUseKeys(s2.pool, Refs, 2) == [3, 4];
    Evict(Optimal, 2, s2, 1);
    assert s3.pool == [Some(1), Some(3)];
    Hit(Optimal, 3, s3);
  }

  /** The totals `generateSteps` reports for `1 2 3 1` with two frames:
      FIFO and LRU fault on every reference, Optimal hits on the last. */
  lemma TwoFrames(alg: Algorithm)
    ensures var g := Generate(Refs, 2, alg);
      g.Some? && |g.value.steps| == 5
      && (alg == Optimal ==> g.value.faults == 3 && g.value.hits == 1)
      && (alg != Optimal ==> g.value.faults == 4 && g.value.hits == 0)
  {
    var states := RunOf(alg);
    assert states[1] == Tick(alg, Refs, 0, states[0]) && states[2] == Tick(alg, Refs, 1, states[1]);
    Warmup(alg, states);
    assert states[4] == Tick(alg, Refs, 3, Tick(alg, Refs, 2, states[2]));
    match alg
    case Fifo => FifoTail(states[2]);
    case Lru => LruTail(states[2]);
    case Optimal => OptimalTail(states[2]);
  }
}
