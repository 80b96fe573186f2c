/** Interleaving planes into one packed sequence, as `zip` followed by `flat_map` does. */
module Interleaving {

  /** Length of the shortest plane: how many items a `zip` over all of them yields. */
  function MinLen<T>(planes: seq<seq<T>>): (m: nat)
    requires |planes| > 0
    ensures forall i :: 0 <= i < |planes| ==> m <= |planes[i]|
    ensures exists i :: 0 <= i < |planes| && m == |planes[i]|
  {
    if |planes| == 1 then |planes[0]|
    else
      var rest := MinLen(planes[1..]);
      if |planes[0]| <= rest then |planes[0]| else rest
  }

  /** Position `k * n + i` (place `i` of group `k`, groups of `n`), written so that each group adds `n`. */
  function Slot(k: nat, n: nat, i: nat): nat
  {
    if k == 0 then i else n + Slot(k - 1, n, i)
  }

  /** The group a position falls in. */
  function Group(p: nat, n: nat): nat
    requires n > 0
  {
    if p < n then 0 else 1 + Group(p - n, n)
  }

  /** The place of a position within its group. */
  function Place(p: nat, n: nat): (i: nat)
    requires n > 0
    ensures i < n
  {
    if p < n then p else Place(p - n, n)
  }

  lemma {:induction false} SlotIsOffset(k: nat, n: nat, i: nat)
    ensures Slot(k, n, i) == k * n + i
  {
    if k > 0 {
      SlotIsOffset(k - 1, n, i);
    }
  }

  /** Splitting a slot gives back its group and place. */
  lemma {:induction false} SlotSplits(k: nat, n: nat, i: nat)
    requires i < n
    ensures Group(Slot(k, n, i), n) == k && Place(Slot(k, n, i), n) == i
  {
    if k > 0 {
      SlotSplits(k - 1, n, i);
    }
  }

  /** A position below `m` whole groups is in one of those groups. */
  lemma {:induction false} GroupBelow(p: nat, n: nat, m: nat)
    requires n > 0 && p < Slot(m, n, 0)
    ensures Group(p, n) < m
  {
    if p >= n {
      GroupBelow(p - n, n, m - 1);
    }
  }

  /** The place after the last of group `k` is the first of group `k + 1`. */
  lemma {:induction false} SlotNext(k: nat, n: nat, i: nat)
    ensures Slot(k, n, i) + 1 == Slot(k, n, i + 1)
    ensures Slot(k, n, n) == Slot(k + 1, n, 0)
  {
    if k > 0 {
      SlotNext(k - 1, n, i);
    }
  }

  /** Earlier groups come first. */
  lemma {:induction false} SlotBelow(k: nat, m: nat, n: nat, i: nat)
    requires k < m && i < n
    ensures Slot(k, n, i) < Slot(m, n, 0)
  {
    if k > 0 {
      SlotBelow(k - 1, m - 1, n, i);
    }
  }

  /** More groups end later. */
  lemma {:induction false} SlotMono(k: nat, m: nat, n: nat)
    requires k <= m
    ensures Slot(k, n, 0) <= Slot(m, n, 0)
  {
    if k < m {
      SlotMono(k, m - 1, n);
    }
  }

  /** Twice the end of `c` groups of `n`, in ordinary arithmetic. */
  lemma DoubleSlot(c: nat, n: nat)
    ensures 2 * Slot(c, n, 0) == c * 2 * n
  {
    SlotIsOffset(c, n, 0);
  }

  /** One item of each plane in turn, while every plane still has one: position `p` holds item
      `Group(p, n)` of plane `Place(p, n)`, for `n` planes. */
  function Interleave<T>(planes: seq<seq<T>>): (flat: seq<T>)
    requires |planes| > 0
    ensures |flat| == Slot(MinLen(planes), |planes|, 0)
  {
    var n, m := |planes|, MinLen(planes);
    seq(Slot(m, n, 0), p requires 0 <= p < Slot(m, n, 0) => GroupBelow(p, n, m); planes[Place(p, n)][Group(p, n)])
  }

  /** Item `k` of plane `i` lands at place `i` of group `k`. */
  lemma InterleaveSlot<T>(planes: seq<seq<T>>, k: nat, i: nat)
    requires |planes| > 0 && k < MinLen(planes) && i < |planes|
    ensures Slot(k, |planes|, i) < |Interleave(planes)|
    ensures Interleave(planes)[Slot(k, |planes|, i)] == planes[i][k]
  {
    SlotBelow(k, MinLen(planes), |planes|, i);
    SlotSplits(k, |planes|, i);
  }

  /** The packed length is `MinLen * n`, and item `k` of plane `i` lands at position `k * n + i`. */
  lemma InterleaveAt<T>(planes: seq<seq<T>>, k: nat, i: nat)
    requires |planes| > 0 && k < MinLen(planes) && i < |planes|
    ensures |Interleave(planes)| == MinLen(planes) * |planes|
    ensures k * |planes| + i < |Interleave(planes)|
    ensures Interleave(planes)[k * |planes| + i] == planes[i][k]
  {
    InterleaveSlot(planes, k, i);
    SlotIsOffset(k, |planes|, i);
    SlotIsOffset(MinLen(planes), |planes|, 0);
  }

  predicate AllBelow(s: seq<nat>, b: nat)
  {
    forall p :: 0 <= p < |s| ==> s[p] < b
  }

  /** A bound every plane keeps is kept by the packed sequence. */
  lemma InterleaveBounded(planes: seq<seq<nat>>, b: nat)
    requires |planes| > 0
    requires forall i :: 0 <= i < |planes| ==> AllBelow(planes[i], b)
    ensures AllBelow(Interleave(planes), b)
  {
    var flat, n, m := Interleave(planes), |planes|, MinLen(planes);
    forall p | 0 <= p < |flat| ensures flat[p] < b {
      GroupBelow(p, n, m);
      assert flat[p] == planes[Place(p, n)][Group(p, n)];
    }
  }

  lemma {:induction false} SingleGroup(p: nat)
    ensures Group(p, 1) == p && Place(p, 1) == 0
  {
    if p > 0 {
      SingleGroup(p - 1);
    }
  }

  /** A single plane is packed as itself. */
  lemma InterleaveSingle<T>(plane: seq<T>)
    ensures Interleave([plane]) == plane
  {
    var flat := Interleave([plane]);
    SlotIsOffset(|plane|, 1, 0);
    forall p | 0 <= p < |plane| ensures flat[p] == plane[p] {
      SingleGroup(p);
    }
  }
}
