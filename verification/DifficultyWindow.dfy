/** The window of blocks behind the next block weight. */
module DifficultyWindow {

  type Id = nat

  /** One block per height going down from any block; only height zero has no parent. */
  datatype Chain = Chain(parentOf: map<Id, Id>, height: map<Id, nat>, ts: map<Id, nat>) {
    ghost predicate Valid() {
      && height.Keys == ts.Keys
      && forall b :: b in height && height[b] > 0 ==>
                       && b in parentOf && parentOf[b] in height
                       && height[parentOf[b]] == height[b] - 1 && ts[parentOf[b]] < ts[b]
    }
  }

  /** The block `k` steps below `b`. */
  ghost function Back(c: Chain, b: Id, k: nat): (a: Id)
    requires c.Valid() && b in c.height && k <= c.height[b]
    ensures a in c.height && c.height[a] == c.height[b] - k
    decreases k
  {
    if k == 0 then b else
      var up := Back(c, b, k - 1);
      c.parentOf[up]
  }

  function WindowSize(nBlocks: nat, parentHeight: nat): int {
    if 2 * nBlocks < parentHeight - 1 then 2 * nBlocks else parentHeight - 1
  }

  /** `get_block_dependencies`; `p` is the parent of the block. */
  method BlockDependencies(c: Chain, p: Id, nBlocks: nat) returns (ids: seq<Id>)
    requires c.Valid() && p in c.height
    ensures var n := WindowSize(nBlocks, c.height[p]); |ids| == (if n < 0 then 1 else n + 2) && |ids| <= c.height[p] + 1
    ensures |ids| == if 2 * nBlocks + 2 <= c.height[p] + 1 then 2 * nBlocks + 2 else c.height[p] + 1
    ensures forall k :: 0 <= k < |ids| ==> ids[k] == Back(c, p, k)
  {
    hide Chain.Valid;
    var n := WindowSize(nBlocks, c.height[p]);
    var parent := p;
    ids := [p];
    while |ids| <= n + 1
      invariant 1 <= |ids| <= (if n < 0 then 1 else n + 2) && parent == Back(c, p, |ids| - 1)
      invariant forall k :: 0 <= k < |ids| ==> ids[k] == Back(c, p, k)
      decreases n + 2 - |ids|
    {
      HasParent(c, p, |ids| - 1);
      parent := c.parentOf[parent];
      ids := ids + [parent];
    }
  }

  /** The loop of `calculate_next_weight` that collects its window, oldest first, and what it fetches. */
  method CollectWindow(c: Chain, p: Id, nBlocks: nat) returns (blocks: seq<Id>, fetched: seq<Id>)
    requires c.Valid() && p in c.height && WindowSize(nBlocks, c.height[p]) >= 10
    ensures var n := WindowSize(nBlocks, c.height[p]); |blocks| == |fetched| == n + 1 && n + 1 <= c.height[p]
    ensures |blocks| == if 2 * nBlocks + 1 <= c.height[p] then 2 * nBlocks + 1 else c.height[p]
    ensures forall b :: b in blocks ==> b in c.height && c.height[b] > 0
    ensures var n := WindowSize(nBlocks, c.height[p]); forall k :: 0 <= k <= n ==> blocks[k] == Back(c, p, n - k)
    ensures forall k :: 0 <= k < |fetched| ==> fetched[k] == Back(c, p, k + 1)
  {
    hide Chain.Valid;
    var n := WindowSize(nBlocks, c.height[p]);
    var root := p;
    var newestFirst: seq<Id> := [];
    fetched := [];
    while |newestFirst| < n + 1
      invariant |newestFirst| == |fetched| <= n + 1 && root == Back(c, p, |fetched|)
      invariant forall k :: 0 <= k < |newestFirst| ==> newestFirst[k] == Back(c, p, k)
      invariant forall k :: 0 <= k < |fetched| ==> fetched[k] == Back(c, p, k + 1)
      decreases n + 1 - |newestFirst|
    {
      newestFirst := newestFirst + [root];
      HasParent(c, p, |fetched|);
      root := c.parentOf[root];
      fetched := fetched + [root];
    }
    blocks := seq(n + 1, k requires 0 <= k < n + 1 => newestFirst[n - k]);
  }

  lemma HasParent(c: Chain, b: Id, k: nat)
    requires c.Valid() && b in c.height && k < c.height[b]
    ensures Back(c, b, k) in c.parentOf && Back(c, b, k + 1) == c.parentOf[Back(c, b, k)]
  {
  }

  /** The listed dependencies are exactly the parent and what the weight calculation fetches. */
  method DependenciesAreFetched(c: Chain, p: Id, nBlocks: nat) returns (ids: seq<Id>, blocks: seq<Id>, fetched: seq<Id>)
    requires c.Valid() && p in c.height && WindowSize(nBlocks, c.height[p]) >= 10
    ensures ids == [p] + fetched && forall b :: b in blocks ==> b in ids
  {
    hide Chain.Valid;
    ids := BlockDependencies(c, p, nBlocks);
    blocks, fetched := CollectWindow(c, p, nBlocks);
    ghost var n := WindowSize(nBlocks, c.height[p]);
    assert Back(c, p, 0) == p;
    forall b | b in blocks ensures b in ids {
      var k :| 0 <= k < |blocks| && blocks[k] == b;
      assert ids[n - k] == b;
    }
  }

  lemma {:induction false} BackIsOlder(c: Chain, b: Id, j: nat, k: nat)
    requires c.Valid() && b in c.height && j < k <= c.height[b]
    ensures c.ts[Back(c, b, k)] < c.ts[Back(c, b, j)]
    decreases k
  {
    if j < k - 1 {
      BackIsOlder(c, b, j, k - 1);
    }
  }

  /** The timestamps of the window strictly grow, so the order assertion of the source holds. */
  lemma WindowIsSorted(c: Chain, p: Id, n: nat, blocks: seq<Id>, i: nat, j: nat)
    requires c.Valid() && p in c.height && n + 1 <= c.height[p] && |blocks| == n + 1
    requires forall k :: 0 <= k <= n ==> blocks[k] == Back(c, p, n - k)
    requires i < j <= n
    ensures blocks[i] in c.ts && blocks[j] in c.ts && c.ts[blocks[i]] < c.ts[blocks[j]]
  {
    BackIsOlder(c, p, n - j, n - i);
  }

  /** The prefix sums of the solve times and the spans taken from them: every index is in range and
  every span is the difference of two block timestamps. */
  method Spans(ts: seq<int>, K: nat) returns (spans: seq<int>)
    requires |ts| > 1 && K == (|ts| - 1) / 2
    ensures |spans| == |ts| - 1 - K
    ensures forall i :: 0 <= i < |spans| ==> spans[i] == ts[i + K + 1] - ts[i]
  {
    var N := |ts| - 1;
    var solvetimes := seq(N, i requires 0 <= i < N => ts[i + 1] - ts[i]);
    var prefix := [0];
    var k := 0;
    while k < N
      invariant 0 <= k <= N && |prefix| == k + 1
      invariant forall j :: 0 <= j <= k ==> prefix[j] == ts[j] - ts[0]
    {
      prefix := prefix + [prefix[|prefix| - 1] + solvetimes[k]];
      k := k + 1;
    }
    spans := [];
    var i := K;
    while i < N
      invariant K <= i <= N && |spans| == i - K
      invariant forall j :: 0 <= j < |spans| ==> spans[j] == ts[j + K + 1] - ts[j]
    {
      spans := spans + [prefix[i + 1] - prefix[i - K]];
      i := i + 1;
    }
  }
}
