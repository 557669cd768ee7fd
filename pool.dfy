/** The frame pool of the simulation: `frames: (number | null)[]`, a fixed
    number of slots, each empty (`null`) or holding one page id. */
module Pool {
  import opened Wrappers

  type Frames = seq<Option<int>>

  /** `Array.prototype.indexOf`: the first position holding `x`, or -1 when
      no position does. */
  function IndexOf<T(==)>(s: seq<T>, x: T): (i: int)
    ensures -1 <= i < |s|
    ensures i == -1 <==> x !in s
    ensures i >= 0 ==> s[i] == x && forall j :: 0 <= j < i ==> s[j] != x
  {
    if |s| == 0 then -1
    else if s[0] == x then 0
    else
      var k := IndexOf(s[1..], x);
      if k == -1 then -1 else k + 1
  }

  /** `frames.includes(page)`: some slot holds the page. */
  predicate Resident(frames: Frames, page: int) {
    Some(page) in frames
  }

  /** No page id sits in two slots at once. */
  ghost predicate Distinct(frames: Frames) {
    forall i, j :: 0 <= i < j < |frames| && frames[i].Some? ==> frames[i] != frames[j]
  }

  /** An empty slot is followed only by empty slots: slots fill from the left
      (`indexOf(null)`) and a filled slot never becomes empty again. */
  ghost predicate Packed(frames: Frames) {
    forall i, j :: 0 <= i < j < |frames| && frames[i].None? ==> frames[j].None?
  }

  /** `Array(frameCount).fill(null)`. */
  function EmptyFrames(n: nat): (r: Frames)
    ensures |r| == n
    ensures forall p :: !Resident(r, p)
  {
    seq(n, _ => None)
  }

  /** The number of filled slots of a packed pool: the position of the first
      empty slot, or the pool's length when it is full. */
  function Filled(frames: Frames): (n: nat)
    ensures n <= |frames|
    ensures n == |frames| <==> None !in frames
  {
    var e := IndexOf(frames, None);
    if e == -1 then |frames| else e
  }

  /** A fault that finds an empty slot fills the lowest one: the pool stays
      distinct and packed, and gains exactly the new page. */
  lemma FillFirstEmpty(frames: Frames, page: int)
    requires Distinct(frames) && Packed(frames)
    requires !Resident(frames, page) && None in frames
    ensures var e := IndexOf(frames, None);
      var after := frames[e := Some(page)];
      Distinct(after) && Packed(after) && Filled(after) == e + 1
      && forall p :: Resident(after, p) <==> Resident(frames, p) || p == page
  {
    var e := IndexOf(frames, None);
    var after := frames[e := Some(page)];
    forall p | Resident(frames, p) ensures Resident(after, p) {
      var i := IndexOf(frames, Some(p));
      assert after[i] == Some(p);
    }
    forall p | Resident(after, p) && p != page ensures Resident(frames, p) {
      var i := IndexOf(after, Some(p));
      assert frames[i] == Some(p);
    }
    assert after[e] == Some(page);
    if e + 1 < |after| {
      assert after[e + 1] == None;
      assert IndexOf(after, None) == e + 1;
    } else {
      assert None !in after;
    }
  }

  /** A fault on a full pool that overwrites slot `k`: the pool stays distinct
      and full, loses the page that was in slot `k` and gains the new page. */
  lemma ReplaceSlot(frames: Frames, k: nat, page: int)
    requires Distinct(frames) && None !in frames
    requires k < |frames| && !Resident(frames, page)
    ensures var after := frames[k := Some(page)];
      Distinct(after) && Packed(after) && None !in after
      && forall p :: Resident(after, p) <==> (Resident(frames, p) && Some(p) != frames[k]) || p == page
  {
    var after := frames[k := Some(page)];
    forall p | Resident(frames, p) && Some(p) != frames[k] ensures Resident(after, p) {
      var i := IndexOf(frames, Some(p));
      assert after[i] == Some(p);
    }
    forall p | Resident(after, p) && p != page ensures Resident(frames, p) && Some(p) != frames[k] {
      var i := IndexOf(after, Some(p));
      assert frames[i] == Some(p);
    }
    assert after[k] == Some(page);
    forall i | 0 <= i < |after| ensures after[i].Some? {
      assert frames[i] in frames;
    }
  }

  /** Writing `page` into one slot can make no page resident but `page`. */
  lemma ResidentAfterWrite(frames: Frames, k: nat, page: int, p: int)
    requires k < |frames| && Resident(frames[k := Some(page)], p)
    ensures p == page || Resident(frames, p)
  {
    var i := IndexOf(frames[k := Some(page)], Some(p));
    if i != k {
      assert frames[i] == Some(p);
    }
  }
}
