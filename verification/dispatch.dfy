/**
  The scheduling policies a worker applies to pick which queued request it
  serves next. `rand()` is not modelled: its draw is the parameter `r`.
 */
module Dispatch {
  import opened RequestQueue

  datatype Policy = Fifo | SmallestFileFirst | Random

  /** The `scheduling_algo` selector: 1 and 2 are special, every other value is FIFO. */
  function PolicyOf(algo: int): (p: Policy)
    ensures p == SmallestFileFirst <==> algo == 1
    ensures p == Random <==> algo == 2
  {
    if algo == 1 then SmallestFileFirst
    else if algo == 2 then Random
    else Fifo
  }

  /**
    `idx` holds the smallest file size of `q`, and no earlier entry holds that
    size: the entry a strict-`<` left-to-right scan settles on.
   */
  ghost predicate IsFirstMinimum(q: seq<Request>, idx: int)
  {
    && 0 <= idx < |q|
    && (forall j :: 0 <= j < |q| ==> q[idx].filesize <= q[j].filesize)
    && (forall j :: 0 <= j < idx ==> q[idx].filesize < q[j].filesize)
  }

  /** At most one index is the first minimum. */
  lemma FirstMinimumUnique(q: seq<Request>, i: int, j: int)
    requires IsFirstMinimum(q, i) && IsFirstMinimum(q, j)
    ensures i == j
  {
    var a, b := q[i].filesize, q[j].filesize;
    assert i < j ==> b < a;
    assert j < i ==> a < b;
  }

  /**
    The smallest-file-first loop from position `i` on, with `best` the index
    found so far (its size is the loop's `min_size`).
   */
  function ScanSmallest(q: seq<Request>, i: nat, best: nat): (idx: nat)
    requires best < i <= |q|
    requires IsFirstMinimum(q[..i], best)
    ensures IsFirstMinimum(q, idx)
    decreases |q| - i
  {
    if i == |q| then
      assert q[..i] == q;
      best
    else
      var best' := if q[i].filesize < q[best].filesize then i else best;
      assert q[..i + 1] == q[..i] + [q[i]];
      ScanSmallest(q, i + 1, best')
  }

  /** Smallest-file-first: the scan starts with entry 0 as the minimum. */
  function SelectSmallest(q: seq<Request>): (idx: nat)
    requires |q| > 0
    ensures IsFirstMinimum(q, idx)
  {
    ScanSmallest(q, 1, 0)
  }

  /** The index a worker removes, among the `|q|` present entries. */
  function SelectIndex(policy: Policy, q: seq<Request>, r: nat): (idx: nat)
    requires |q| > 0
    ensures idx < |q|
    ensures policy == Fifo ==> idx == 0
    ensures policy == Random ==> idx == r % |q|
    ensures policy == SmallestFileFirst ==> IsFirstMinimum(q, idx)
  {
    match policy
    case Fifo => 0
    case SmallestFileFirst => SelectSmallest(q)
    case Random => r % |q|
  }

  /** Every present entry is the random choice for some draw. */
  lemma RandomReachesEveryIndex(q: seq<Request>, k: nat)
    requires k < |q|
    ensures exists r: nat :: SelectIndex(Random, q, r) == k
  {
    assert SelectIndex(Random, q, k) == k;
  }
}
