/** What the three replacement policies look at when the pool is full: the
    scans that pick a victim slot, the LRU `lastUsed` record and the Optimal
    look-ahead over the rest of the reference list. */
module Policies {
  import opened Wrappers
  import opened Pool

  /** The scan `if (key < best) { best = key; victim = i }` from the left,
      starting from an infinitely large best: it picks a smallest key and,
      because the comparison is strict, the lowest position among equals. */
  function FirstMin(keys: seq<int>): (k: nat)
    requires |keys| > 0
    ensures k < |keys|
    ensures forall j :: 0 <= j < |keys| ==> keys[k] <= keys[j]
    ensures forall j :: 0 <= j < k ==> keys[k] < keys[j]
  {
    if |keys| == 1 then 0
    else
      var k := FirstMin(keys[..|keys| - 1]);
      if keys[|keys| - 1] < keys[k] then |keys| - 1 else k
  }

  /** The scan `if (key > best) { best = key; victim = i }` from the left: a
      largest key, the lowest position among equals. */
  function FirstMax(keys: seq<int>): (k: nat)
    requires |keys| > 0
    ensures k < |keys|
    ensures forall j :: 0 <= j < |keys| ==> keys[j] <= keys[k]
    ensures forall j :: 0 <= j < k ==> keys[j] < keys[k]
  {
    if |keys| == 1 then 0
    else
      var k := FirstMax(keys[..|keys| - 1]);
      if keys[|keys| - 1] > keys[k] then |keys| - 1 else k
  }

  /** The LRU record `lastUsed` once the first `n` references have been
      processed: exactly the pages referenced so far, each mapped to the
      index of its latest reference. */
  function LastUseMap(refs: seq<int>, n: nat): (m: map<int, nat>)
    requires n <= |refs|
    ensures forall p :: p in m <==> p in refs[..n]
    ensures forall p :: p in m ==> m[p] < n && refs[m[p]] == p
    ensures forall p, j :: p in m && m[p] < j < n ==> refs[j] != p
  {
    if n == 0 then map[]
    else
      assert refs[..n] == refs[..n - 1] + [refs[n - 1]];
      LastUseMap(refs, n - 1)[refs[n - 1] := n - 1]
  }

  /** The index of the first reference to `page` at or after `from`, or
      |refs| when the page is never used again: |refs| lies beyond every
      index and stands for the source's `Number.POSITIVE_INFINITY`. */
  function NextUseFrom(refs: seq<int>, from: nat, page: int): (r: nat)
    requires from <= |refs|
    ensures from <= r <= |refs|
    ensures r < |refs| ==> refs[r] == page
    ensures forall j :: from <= j < r ==> refs[j] != page
    decreases |refs| - from
  {
    if from == |refs| then |refs|
    else if refs[from] == page then from
    else NextUseFrom(refs, from + 1, page)
  }

  /** Per-slot keys read from a record of page ids (`record[frames[i]]`),
      with `fallback` where the slot is empty or its page has no entry. */
  function SlotKeys(frames: Frames, record: map<int, nat>, fallback: int): (keys: seq<int>)
    ensures |keys| == |frames|
  {
    seq(|frames|, i requires 0 <= i < |frames| =>
      if frames[i].Some? && frames[i].value in record then record[frames[i].value] else fallback)
  }

  /** The LRU key of each slot at reference `t`: `lastUsed[frames[i]] || 0`. */
  function LruKeys(frames: Frames, refs: seq<int>, t: nat): (keys: seq<int>)
    requires t <= |refs|
    ensures |keys| == |frames|
  {
    SlotKeys(frames, LastUseMap(refs, t), 0)
  }

  /** The Optimal key of each slot at reference `t`: the next use of its
      page strictly after `t`; an empty slot gets -1, which never beats the
      scan's initial `farthestUse = -1`. */
  function NextUseKeys(frames: Frames, refs: seq<int>, t: nat): (keys: seq<int>)
    requires t < |refs|
    ensures |keys| == |frames|
  {
    seq(|frames|, i requires 0 <= i < |frames| =>
      if frames[i].Some? then NextUseFrom(refs, t + 1, frames[i].value) else -1)
  }
}
