/** Consensus over blocks: the best chain, ties, reorgs and the first block of every transaction. */
module BlockConsensus {
  import opened Graph
  import opened Traversal
  import opened BlockTree
  import opened BlockScore

  // ----- taking first blocks back -----

  /** `first'` is `first` without the marks of `b`. */
  ghost predicate Unmarked(first: FirstBlock, first': FirstBlock, b: Id) {
    && (forall t :: t in first' <==> t in first && first[t] != b)
    && (forall t :: t in first' ==> first'[t] == first[t])
  }

  /** From a new transaction of `b`, only new transactions of `b` lead to another one. */
  lemma {:induction false} NewPathVisited(g: Tree, b: Id, t: Id, u: Id, pruned: set<Id>, roots: set<Id>, visited: set<Id>)
    requires g.Valid() && b in g.parentOf && b in g.blocks && g.parentOf[b] in g.blocks
    requires t in g.NewTxs(b) && u in g.NewTxs(b) && u in g.full.deps && g.TxReaches(t, u) && u in visited
    requires WalkClosed(g.full.deps, roots, pruned, visited) && pruned !! g.NewTxs(b)
    ensures t in visited
    decreases g.full.ts[u]
  {
    if t != u {
      var p :| p in g.full.deps[u] && p !in g.blocks && g.TxReaches(t, p);
      NewBetween(g, b, t, u, p);
      NewPathVisited(g, b, t, p, pruned, roots, visited);
    }
  }

  lemma NewBetween(g: Tree, b: Id, t: Id, u: Id, p: Id)
    requires g.Valid() && b in g.parentOf && b in g.blocks && g.parentOf[b] in g.blocks
    requires t in g.NewTxs(b) && u in g.TxPast(b) && u in g.full.deps && p in g.full.deps[u] && p !in g.blocks
    requires p in g.full.deps && g.TxReaches(t, p)
    ensures p in g.NewTxs(b)
  {
    TxPastClosed(g, b);
    PastClosed(g, g.parentOf[b]);
    hide Tree.TxReaches, Tree.TxPast, Tree.Past;
    if p in g.Past(g.parentOf[b]) {
      TxClosedHolds(g, g.Past(g.parentOf[b]), t, p);
    }
  }

  lemma NewIsVisited(g: Tree, b: Id, t: Id, pruned: set<Id>, visited: set<Id>)
    requires g.Valid() && b in g.parentOf && b in g.blocks && g.parentOf[b] in g.blocks && t in g.NewTxs(b)
    requires WalkClosed(g.full.deps, g.full.deps[b], pruned, visited) && pruned !! g.NewTxs(b)
    ensures t in visited
  {
    assert t in g.TxPast(b);
    var q := ThroughParent(g, b, t);
    assert q in g.full.deps[b] && q !in g.blocks;
    hide Tree.TxPast, Tree.Past;
    NewFromParent(g, b, t, q);
    NewPathVisited(g, b, t, q, pruned, g.full.deps[b], visited);
  }

  lemma NewFromParent(g: Tree, b: Id, t: Id, q: Id)
    requires g.Valid() && b in g.parentOf && b in g.blocks && g.parentOf[b] in g.blocks && t in g.NewTxs(b)
    requires q in g.TxParents(b) && q in g.full.deps && g.TxReaches(t, q)
    ensures q in g.NewTxs(b)
  {
    assert g.TxReaches(q, q);
    assert g.TxReaches(q, b);
    PastClosed(g, g.parentOf[b]);
    hide Tree.TxReaches, Tree.Past;
    if q in g.Past(g.parentOf[b]) {
      TxClosedHolds(g, g.Past(g.parentOf[b]), t, q);
    }
  }

  lemma NewTxsAreTxs(g: Tree, b: Id)
    requires g.Valid() && b in g.blocks
    ensures g.NewTxs(b) !! g.blocks
  {
    TxPastClosed(g, b);
  }

  lemma MarkedAreNew(g: Tree, first: FirstBlock, b: Id)
    requires g.Valid() && b in g.blocks && FirstExact(g, b, first)
    ensures forall t :: t in g.NewTxs(b) <==> t in first && first[t] == b
    ensures g.NewTxs(b) !! g.blocks
  {
    hide Tree.Chain, Tree.NewTxs, Tree.Valid;
    ChainIsBlocks(g, b);
    NewTxsAreTxs(g, b);
  }

  lemma AllIsClosed(d: Dag, b: Id, pruned: set<Id>)
    requires d.Valid() && b in d.deps
    ensures WalkClosed(d.deps, d.deps[b], pruned, d.deps.Keys)
  {
  }

  method WalkMarked(g: Tree, first: FirstBlock, b: Id) returns (order: seq<Id>)
    requires g.Valid() && b in g.parentOf && b in g.blocks && g.parentOf[b] in g.blocks
    requires forall t :: t in g.NewTxs(b) <==> t in first && first[t] == b
    requires g.NewTxs(b) !! g.blocks
    ensures forall t :: t in g.NewTxs(b) ==> t in order
  {
    hide Tree.TxReaches, Tree.TxPast, Tree.Past, Tree.NewTxs, Dag.Valid, Ordered, WalkClosed;
    var pruned := set v | v in g.full.deps && (v in g.blocks || v !in first || first[v] != b);
    BackwardOrdered(g.full);
    AllIsClosed(g.full, b, pruned);
    order := WalkWithin(g.full.deps, BackwardKey(g.full), g.full.deps[b], pruned, g.full.deps.Keys);
    forall t | t in g.NewTxs(b) ensures t in order {
      NewIsVisited(g, b, t, pruned, Elements(order));
    }
  }

  /** Drops every first block pointing to `b`, by a walk that stops at anything else. */
  method RemoveFirstBlockMarkers(g: Tree, first: FirstBlock, b: Id) returns (first': FirstBlock)
    requires g.Valid() && b in g.parentOf && b in g.blocks && g.parentOf[b] in g.blocks && FirstExact(g, b, first)
    ensures Unmarked(first, first', b)
  {
    hide Tree.Valid, Tree.NewTxs, FirstExact;
    MarkedAreNew(g, first, b);
    var order := WalkMarked(g, first, b);
    first' := Unmark(g.blocks, first, b, order);
  }

  method Unmark(blocks: set<Id>, first: FirstBlock, b: Id, order: seq<Id>) returns (first': FirstBlock)
    requires forall t :: t in first && first[t] == b ==> t in order && t !in blocks
    ensures Unmarked(first, first', b)
  {
    first' := first;
    for i := 0 to |order|
      invariant forall t :: t in first' ==> t in first && first'[t] == first[t]
      invariant forall t :: t in first && t !in first' ==> first[t] == b
      invariant forall k :: 0 <= k < i ==> order[k] in blocks || !(order[k] in first' && first'[order[k]] == b)
    {
      var v := order[i];
      if v !in blocks && v in first' && first'[v] == b {
        first' := first' - {v};
      }
    }
  }

  /** Voiding the newest block of the chain leaves first blocks exact for its parent. */
  lemma FirstExactBefore(g: Tree, b: Id, first: FirstBlock, first': FirstBlock)
    requires g.Valid() && b in g.parentOf && b in g.blocks && g.parentOf[b] in g.blocks
    requires FirstExact(g, b, first) && Unmarked(first, first', b)
    ensures FirstExact(g, g.parentOf[b], first')
  {
    hide Tree.TxReaches, Tree.TxPast, Tree.Past, Tree.NewTxs, Tree.Chain, Tree.Valid;
    NewTxsAreNew(g, b);
    ParentOlder(g, b);
    forall t, c | c in g.Chain(g.parentOf[b]) && c in g.blocks && t in g.NewTxs(c) ensures t in first' && first'[t] == c {
      ChainOrder(g, g.parentOf[b], c);
    }
  }

  // ----- the non-voided blocks are one chain -----

  /** The blocks that are not voided are the chain of `tip`, and first blocks follow it. */
  ghost predicate ValidChain(g: Tree, voided: set<Id>, first: FirstBlock, tip: Id) {
    && g.Valid() && tip in g.blocks && voided <= g.blocks && FirstExact(g, tip, first)
    && forall c :: c in g.blocks ==> (c !in voided <==> c in g.Chain(tip))
  }

  lemma TipVoided(g: Tree, voided: set<Id>, first: FirstBlock, first': FirstBlock, tip: Id)
    requires ValidChain(g, voided, first, tip) && tip in g.parentOf && Unmarked(first, first', tip)
    ensures g.parentOf[tip] in g.blocks && ValidChain(g, voided + {tip}, first', g.parentOf[tip])
  {
    hide Tree.TxReaches, Tree.TxPast, Tree.Past, Tree.NewTxs, Tree.Chain, FirstExact;
    ParentOlder(g, tip);
    NewTxsAreNew(g, tip);
    FirstExactBefore(g, tip, first, first');
    forall c | c in g.Chain(g.parentOf[tip]) ensures c != tip {
      ChainOrder(g, g.parentOf[tip], c);
    }
  }

  /** Walks from `head` towards the genesis and voids what is valid, until `common`. */
  method VoidDownTo(g: Tree, voided: set<Id>, first: FirstBlock, head: Id, common: Id, ghost tip: Id)
    returns (voided': set<Id>, first': FirstBlock)
    requires ValidChain(g, voided, first, tip) && head in g.blocks && tip in g.Chain(head) && common in g.Chain(tip) && common in g.blocks
    ensures ValidChain(g, voided', first', common) && voided <= voided'
  {
    hide Tree.TxReaches, Tree.TxPast, Tree.Past, Tree.NewTxs, Tree.Chain, FirstExact;
    voided', first' := voided, first;
    ghost var last := tip;
    var cur := head;
    while g.full.ts[cur] > g.full.ts[common]
      invariant cur in g.blocks && ValidChain(g, voided', first', last) && last in g.Chain(cur) && common in g.Chain(last)
      invariant voided <= voided'
      decreases g.full.ts[cur]
    {
      StepDown(g, cur, last, common);
      if cur !in voided' {
        ghost var marks := first';
        first' := RemoveFirstBlockMarkers(g, first', cur);
        TipVoided(g, voided', marks, first', last);
        voided' := voided' + {cur};
        last := g.parentOf[cur];
      }
      cur := g.parentOf[cur];
    }
    ChainOrder(g, cur, last);
    ChainOrder(g, last, common);
  }

  lemma StepDown(g: Tree, cur: Id, last: Id, common: Id)
    requires g.Valid() && cur in g.blocks && last in g.Chain(cur) && last in g.blocks && common in g.Chain(last) && common in g.blocks
    requires g.full.ts[cur] > g.full.ts[common]
    ensures cur in g.parentOf && g.parentOf[cur] in g.blocks && g.full.ts[g.parentOf[cur]] < g.full.ts[cur]
    ensures last != cur ==> last in g.Chain(g.parentOf[cur]) && cur !in g.Chain(last)
    ensures last == cur ==> common in g.Chain(g.parentOf[cur]) && g.parentOf[cur] in g.Chain(g.parentOf[cur])
  {
    ChainOrder(g, cur, last);
    ChainOrder(g, last, common);
    if cur != g.genesis {
      ParentOlder(g, cur);
      ChainIsBlocks(g, g.parentOf[cur]);
    }
    if last != cur && cur in g.Chain(last) {
      ChainOrder(g, last, cur);
    }
  }

  /** Voids the chains of all heads down to `common`, the newest valid block below the new block. */
  method AddVoidedByToMultipleChains(g: Tree, voided: set<Id>, first: FirstBlock, heads: seq<Id>, common: Id, ghost tip: Id)
    returns (voided': set<Id>, first': FirstBlock)
    requires ValidChain(g, voided, first, tip) && common in g.Chain(tip) && common in g.blocks && |heads| > 0
    requires forall k :: 0 <= k < |heads| ==> heads[k] in g.blocks && tip in g.Chain(heads[k])
    ensures ValidChain(g, voided', first', common) && voided <= voided'
  {
    hide Tree.TxReaches, Tree.TxPast, Tree.Past, Tree.NewTxs, Tree.Chain, FirstExact, ValidChain;
    ValidParts(g, voided, first, tip);
    voided', first' := voided, first;
    ghost var last := tip;
    for i := 0 to |heads|
      invariant voided <= voided' && ValidChain(g, voided', first', last) && last == if i == 0 then tip else common
    {
      InAllChains(g, heads[i], tip, common);
      voided', first' := VoidDownTo(g, voided', first', heads[i], common, last);
      last := common;
    }
  }

  lemma ValidParts(g: Tree, voided: set<Id>, first: FirstBlock, tip: Id)
    requires ValidChain(g, voided, first, tip)
    ensures g.Valid() && tip in g.blocks
  {
  }

  lemma InAllChains(g: Tree, head: Id, tip: Id, common: Id)
    requires g.Valid() && head in g.blocks && tip in g.Chain(head) && tip in g.blocks && common in g.Chain(tip) && common in g.blocks
    ensures common in g.Chain(head) && common in g.Chain(common)
  {
    ChainOrder(g, head, tip);
    ChainIsBlocks(g, common);
  }

  /** Un-voids the chain of `b` down to the first block that is not voided. */
  method RemoveVoidedByFromChain(g: Tree, voided: set<Id>, b: Id, ghost p: Id) returns (voided': set<Id>)
    requires g.Valid() && b in g.blocks && p in g.Chain(b) && p in g.blocks && voided <= g.blocks
    requires forall c :: c in g.blocks ==> (c !in voided <==> c in g.Chain(p))
    ensures voided' <= g.blocks && forall c :: c in g.blocks ==> (c !in voided' <==> c in g.Chain(b))
  {
    hide Tree.TxReaches, Tree.TxPast, Tree.Past, Tree.NewTxs, Tree.Chain;
    voided' := voided;
    var cur := b;
    ChainIsBlocks(g, b);
    ChainOrder(g, b, p);
    while cur in voided'
      invariant cur in g.blocks && cur in g.Chain(b) && p in g.Chain(cur) && voided' <= g.blocks
      invariant forall c :: c in g.blocks ==> (c !in voided' <==> c in g.Chain(p) || (c in g.Chain(b) && c !in g.Chain(cur)))
      decreases g.full.ts[cur]
    {
      UnvoidStep(g, b, cur, p);
      voided' := voided' - {cur};
      cur := g.parentOf[cur];
    }
    UnvoidEnd(g, b, cur, p);
  }

  lemma UnvoidStep(g: Tree, b: Id, cur: Id, p: Id)
    requires g.Valid() && b in g.blocks && cur in g.blocks && cur in g.Chain(b) && p in g.Chain(cur) && p in g.blocks && cur !in g.Chain(p)
    ensures cur in g.parentOf && g.parentOf[cur] in g.blocks && 0 <= g.full.ts[g.parentOf[cur]] < g.full.ts[cur]
    ensures g.parentOf[cur] in g.Chain(b) && p in g.Chain(g.parentOf[cur]) && g.Chain(cur) == {cur} + g.Chain(g.parentOf[cur])
    ensures cur !in g.Chain(g.parentOf[cur])
  {
    ChainIsBlocks(g, p);
    ChainOrder(g, b, cur);
    ParentOlder(g, cur);
    ChainIsBlocks(g, g.parentOf[cur]);
    if cur in g.Chain(g.parentOf[cur]) {
      ChainOrder(g, g.parentOf[cur], cur);
    }
  }

  lemma UnvoidEnd(g: Tree, b: Id, cur: Id, p: Id)
    requires g.Valid() && b in g.blocks && cur in g.blocks && cur in g.Chain(b) && p in g.Chain(cur) && p in g.blocks
    ensures cur in g.Chain(cur) && g.Chain(p) <= g.Chain(b)
    ensures cur in g.Chain(p) ==> cur == p
  {
    ChainIsBlocks(g, cur);
    ChainOrder(g, b, cur);
    ChainOrder(g, cur, p);
    if cur in g.Chain(p) {
      ChainOrder(g, p, cur);
    }
  }

  /** The newest valid block below `b`: where its chain leaves the best chain. */
  method FindFirstParentInBestChain(g: Tree, voided: set<Id>, b: Id, ghost first: FirstBlock, ghost tip: Id) returns (p: Id)
    requires ValidChain(g, voided + {b}, first, tip) && b in g.parentOf && b in g.blocks && g.parentOf[b] in g.blocks && b !in g.Chain(g.parentOf[b])
    ensures p in g.blocks && p in g.Chain(g.parentOf[b]) && p in g.Chain(tip)
    ensures forall c :: c in g.Chain(g.parentOf[b]) && c in g.Chain(tip) ==> c in g.Chain(p)
  {
    hide Tree.TxReaches, Tree.TxPast, Tree.Past, Tree.NewTxs, Tree.Chain, FirstExact;
    p := g.parentOf[b];
    ghost var top := p;
    ChainIsBlocks(g, top);
    ChainIsBlocks(g, tip);
    while p in voided
      invariant p in g.blocks && p in g.Chain(top)
      invariant forall c :: c in g.Chain(top) && c in g.Chain(tip) ==> c in g.Chain(p)
      decreases g.full.ts[p]
    {
      FindStep(g, top, p, tip);
      p := g.parentOf[p];
    }
  }

  lemma FindStep(g: Tree, top: Id, p: Id, tip: Id)
    requires g.Valid() && top in g.blocks && p in g.blocks && tip in g.blocks && p in g.Chain(top) && p !in g.Chain(tip) && g.genesis in g.Chain(tip)
    ensures p in g.parentOf && g.parentOf[p] in g.blocks && g.full.ts[g.parentOf[p]] < g.full.ts[p] && g.parentOf[p] in g.Chain(top)
    ensures g.Chain(p) == {p} + g.Chain(g.parentOf[p])
  {
    ParentOlder(g, p);
    ChainOrder(g, top, p);
    ChainIsBlocks(g, g.parentOf[p]);
  }

  // ----- the best chain -----

  /** The heads among `s`: members that no member outscores. */
  ghost function Heads(g: Tree, s: set<Id>): set<Id>
    requires g.Valid() && s <= g.blocks
  {
    set x | x in s && forall c :: c in s ==> g.Score(c) <= g.Score(x)
  }

  /** The chain of `tip` is what the chains of all heads have in common. */
  ghost predicate IsCommon(g: Tree, heads: set<Id>, tip: Id)
    requires g.Valid() && tip in g.blocks && heads <= g.blocks
  {
    forall c :: c in g.blocks ==> (c in g.Chain(tip) <==> forall x :: x in heads ==> c in g.Chain(x))
  }

  ghost predicate ScoresExact(g: Tree, s: set<Id>, score: map<Id, nat>)
    requires g.Valid() && s <= g.blocks
  {
    score.Keys == s && forall c :: c in s ==> score[c] == g.Score(c)
  }

  /** The state between two arrivals.  `tip` is the newest block that is not voided and `best` the
  block on top of the height index. */
  ghost predicate Best(g: Tree, voided: set<Id>, score: map<Id, nat>, first: FirstBlock, tips: seq<Id>, best: Id, tip: Id) {
    && ValidChain(g, voided, first, tip) && ScoresExact(g, g.blocks, score)
    && Elements(tips) == Heads(g, g.blocks) && IsCommon(g, Elements(tips), tip) && best in Elements(tips)
  }

  /** The same seen from a tree that already holds the arriving block `b`, a leaf. */
  ghost predicate Arriving(g: Tree, b: Id, voided: set<Id>, score: map<Id, nat>, first: FirstBlock, tips: seq<Id>, best: Id, tip: Id) {
    && ValidChain(g, voided + {b}, first, tip) && b !in voided
    && b in g.parentOf && b in g.blocks && g.parentOf[b] in g.blocks && (forall c :: c in g.parentOf ==> g.parentOf[c] != b)
    && ScoresExact(g, g.blocks - {b}, score)
    && Elements(tips) == Heads(g, g.blocks - {b}) && IsCommon(g, Elements(tips), tip) && best in Elements(tips)
  }

  /** No two heads are both valid. */
  lemma AtMostOneValidHead(g: Tree, voided: set<Id>, score: map<Id, nat>, first: FirstBlock, tips: seq<Id>, best: Id, tip: Id, x: Id, y: Id)
    requires Best(g, voided, score, first, tips, best, tip)
    requires x in Elements(tips) && y in Elements(tips) && x !in voided && y !in voided
    ensures x == y
  {
    hide Tree.TxReaches, Tree.TxPast, Tree.Past, Tree.NewTxs, Tree.Chain, FirstExact, Tree.Score, ScoresExact;
    assert x in g.Chain(y) && y in g.Chain(x);
    ChainOrder(g, x, y);
    ChainOrder(g, y, x);
  }

  lemma {:induction false} LeafNotBelow(g: Tree, b: Id, c: Id)
    requires g.Valid() && b in g.blocks && c in g.blocks && c != b && forall x :: x in g.parentOf ==> g.parentOf[x] != b
    ensures b !in g.Chain(c)
    decreases g.full.ts[c]
  {
    if c != g.genesis {
      ParentOlder(g, c);
      LeafNotBelow(g, b, g.parentOf[c]);
    }
  }

  /** A block below another has a child on the way. */
  lemma {:induction false} ChildBelow(g: Tree, x: Id, y: Id) returns (c: Id)
    requires g.Valid() && x in g.blocks && y in g.Chain(x) && y != x
    ensures c in g.Chain(x) && c in g.parentOf && g.parentOf[c] == y
    decreases g.full.ts[x]
  {
    ParentOlder(g, x);
    ChainIsBlocks(g, x);
    if g.parentOf[x] == y {
      c := x;
    } else {
      c := ChildBelow(g, g.parentOf[x], y);
    }
  }

  /** Case (i): a valid parent without other children is the only head. */
  lemma SoleHead(g: Tree, b: Id, voided: set<Id>, score: map<Id, nat>, first: FirstBlock, tips: seq<Id>, best: Id, tip: Id)
    requires Arriving(g, b, voided, score, first, tips, best, tip)
    requires g.parentOf[b] !in voided && forall c :: c in g.parentOf && g.parentOf[c] == g.parentOf[b] ==> c == b
    ensures tip == g.parentOf[b] == best && Elements(tips) == {best}
  {
    hide Tree.TxReaches, Tree.TxPast, Tree.Past, Tree.NewTxs, Tree.Chain, FirstExact, Tree.Score, ScoresExact;
    var p := g.parentOf[b];
    ParentOlder(g, b);
    forall x | x in Elements(tips) ensures x == p {
      assert p in g.Chain(x);
      if x != p {
        var c := ChildBelow(g, x, p);
        LeafNotBelow(g, b, x);
      }
    }
    ChainIsBlocks(g, tip);
    assert tip in g.Chain(p) && p in g.Chain(tip);
    ChainOrder(g, tip, p);
    ChainOrder(g, p, tip);
  }

  // ----- scoring the arriving block -----

  lemma ScoresAreKnown(g: Tree, b: Id, score: map<Id, nat>)
    requires g.Valid() && b in g.blocks && (ScoresExact(g, g.blocks - {b}, score) || ScoresExact(g, g.blocks, score))
    ensures ScoresKnown(g, score, b)
  {
    hide Tree.Score, Tree.Chain;
  }

  /** The score of `b`; when `mark`, its chain becomes the one first blocks follow. */
  method CalculateScore(g: Tree, voided: set<Id>, score: map<Id, nat>, first: FirstBlock, b: Id, mark: bool, ghost tip: Id)
    returns (sum: nat, first': FirstBlock, p: Id)
    requires ValidChain(g, voided + {b}, first, tip)
    requires b in g.parentOf && b in g.blocks && g.parentOf[b] in g.blocks && b !in g.Chain(g.parentOf[b]) && ScoresKnown(g, score, b)
    requires mark ==> tip in g.Chain(g.parentOf[b])
    ensures sum == g.Score(b) && p in g.blocks && p in g.Chain(g.parentOf[b]) && p in g.Chain(tip)
    ensures forall c :: c in g.Chain(g.parentOf[b]) && c in g.Chain(tip) ==> c in g.Chain(p)
    ensures if mark then FirstExact(g, b, first') && p == tip else first' == first
  {
    hide Tree.TxReaches, Tree.TxPast, Tree.Past, Tree.NewTxs, Tree.Chain, Tree.Score, FirstExact, ScoresKnown, Known;
    p := FindFirstParentInBestChain(g, voided, b, first, tip);
    KnownIsPast(g, tip, first, p);
    if mark {
      NewestCommon(g, tip, p);
    }
    var used;
    sum, used, first' := ScoreBlockDfs(g, score, first, b, mark, g.full.ts[p], p);
  }

  lemma NewestCommon(g: Tree, tip: Id, p: Id)
    requires g.Valid() && tip in g.blocks && p in g.blocks && p in g.Chain(tip) && (tip in g.Chain(tip) ==> tip in g.Chain(p))
    ensures p == tip
  {
    ChainIsBlocks(g, tip);
    ChainOrder(g, tip, p);
    ChainOrder(g, p, tip);
  }

  // ----- the three outcomes -----

  lemma HeadsScore(g: Tree, b: Id, tips: seq<Id>, best: Id)
    requires g.Valid() && b in g.blocks && Elements(tips) == Heads(g, g.blocks - {b}) && best in Elements(tips)
    ensures best in g.blocks && best != b
    ensures forall c :: c in g.blocks && c != b ==> g.Score(c) <= g.Score(best)
    ensures forall x :: x in Elements(tips) ==> x in g.blocks && x != b && g.Score(x) == g.Score(best)
    ensures forall x :: x in g.blocks && x != b && g.Score(x) == g.Score(best) ==> x in Elements(tips)
  {
    hide Tree.Score, Elements;
  }

  lemma BlockWins(g: Tree, b: Id, voided: set<Id>, voided': set<Id>, score: map<Id, nat>, first: FirstBlock, first': FirstBlock,
                  tips: seq<Id>, best: Id, tip: Id)
    requires Arriving(g, b, voided, score, first, tips, best, tip) && best in g.blocks && g.Score(b) > g.Score(best)
    requires ValidChain(g, voided', first', b)
    ensures Best(g, voided', score[b := g.Score(b)], first', [b], b, b)
  {
    hide Tree.Score, Tree.Chain, Tree.Valid, FirstExact, Tree.NewTxs;
    ArrivingParts(g, b, voided, score, first, tips, best, tip);
    HeadsScore(g, b, tips, best);
    assert Elements([b]) == {b};
    forall x ensures x in Heads(g, g.blocks) <==> x == b {
    }
  }

  lemma ArrivingParts(g: Tree, b: Id, voided: set<Id>, score: map<Id, nat>, first: FirstBlock, tips: seq<Id>, best: Id, tip: Id)
    requires Arriving(g, b, voided, score, first, tips, best, tip)
    ensures g.Valid() && tip in g.blocks && voided <= g.blocks && FirstExact(g, tip, first)
    ensures g.parentOf[b] in g.blocks && b !in g.Chain(tip) && tip != b && b !in g.Chain(g.parentOf[b])
    ensures ScoresKnown(g, score, b)
  {
    hide Tree.TxReaches, Tree.TxPast, Tree.Past, Tree.NewTxs, Tree.Chain, Tree.Score, FirstExact, ScoresExact, Heads;
    ChainIsBlocks(g, tip);
    ParentOlder(g, b);
    LeafNotBelow(g, b, g.parentOf[b]);
    ScoresAreKnown(g, b, score);
  }

  lemma BlockLoses(g: Tree, b: Id, voided: set<Id>, score: map<Id, nat>, first: FirstBlock, tips: seq<Id>, best: Id, tip: Id)
    requires Arriving(g, b, voided, score, first, tips, best, tip) && best in g.blocks && g.Score(b) < g.Score(best)
    ensures Best(g, voided + {b}, score[b := g.Score(b)], first, tips, best, tip)
  {
    hide Tree.Score, Tree.Chain, ValidChain, Tree.Valid, IsCommon;
    ArrivingParts(g, b, voided, score, first, tips, best, tip);
    HeadsScore(g, b, tips, best);
    forall x ensures x in Heads(g, g.blocks) <==> x in Elements(tips) {
    }
  }

  lemma BlockTies(g: Tree, b: Id, voided: set<Id>, voided': set<Id>, score: map<Id, nat>, first: FirstBlock, first': FirstBlock,
                  tips: seq<Id>, best: Id, tip: Id, p: Id)
    requires Arriving(g, b, voided, score, first, tips, best, tip) && best in g.blocks && g.Score(b) == g.Score(best)
    requires p in g.blocks && p in g.Chain(g.parentOf[b]) && p in g.Chain(tip) && ValidChain(g, voided', first', p)
    requires forall c :: c in g.Chain(g.parentOf[b]) && c in g.Chain(tip) ==> c in g.Chain(p)
    ensures Best(g, voided', score[b := g.Score(b)], first', tips + [b], best, p)
  {
    hide Tree.Score, Tree.Chain, ValidChain, Tree.Valid, IsCommon, Elements;
    ArrivingParts(g, b, voided, score, first, tips, best, tip);
    HeadsScore(g, b, tips, best);
    ElementsAppend(tips, b);
    forall x ensures x in Heads(g, g.blocks) <==> x in Elements(tips) + {b} {
    }
    CommonWithTie(g, b, Elements(tips), tip, p);
  }

  lemma ElementsAppend(tips: seq<Id>, b: Id)
    ensures Elements(tips + [b]) == Elements(tips) + {b}
  {
  }

  lemma TieChains(g: Tree, b: Id, tip: Id, p: Id)
    requires g.Valid() && tip in g.blocks && b in g.parentOf && b in g.blocks && g.parentOf[b] in g.blocks
    requires p in g.blocks && p in g.Chain(g.parentOf[b]) && p in g.Chain(tip)
    ensures g.Chain(p) <= g.Chain(tip) && g.Chain(p) <= g.Chain(g.parentOf[b]) && g.Chain(b) == {b} + g.Chain(g.parentOf[b])
  {
    ChainOrder(g, tip, p);
    ChainOrder(g, g.parentOf[b], p);
    NewTxsAreNew(g, b);
  }

  /** What the old heads and the new one have in common ends at the newest valid block below the new one. */
  lemma CommonWithTie(g: Tree, b: Id, heads: set<Id>, tip: Id, p: Id)
    requires g.Valid() && tip in g.blocks && heads <= g.blocks && IsCommon(g, heads, tip) && b !in g.Chain(tip)
    requires b in g.parentOf && b in g.blocks && g.parentOf[b] in g.blocks
    requires p in g.blocks && p in g.Chain(g.parentOf[b]) && p in g.Chain(tip)
    requires forall c :: c in g.Chain(g.parentOf[b]) && c in g.Chain(tip) ==> c in g.Chain(p)
    ensures IsCommon(g, heads + {b}, p)
  {
    hide Tree.Chain, Tree.Valid;
    TieChains(g, b, tip, p);
    forall c | c in g.blocks ensures c in g.Chain(p) <==> forall x :: x in heads + {b} ==> c in g.Chain(x) {
      if c in g.Chain(p) {
        assert c in g.Chain(tip) && c in g.Chain(b);
      }
      if forall x :: x in heads + {b} ==> c in g.Chain(x) {
        assert b in heads + {b};
        assert forall x :: x in heads ==> x in heads + {b};
        assert c in g.Chain(tip) && c in g.Chain(b);
      }
    }
  }

  // ----- a block arrives -----

  datatype Reorg = NoReorg | Reorg(common: Id, oldBest: Id, newBest: Id)

  /** A reported reorg starts from a strict ancestor of the old best block, also below the new one. */
  ghost predicate ReorgSound(g: Tree, reorg: Reorg)
    requires g.Valid()
  {
    reorg.Reorg? ==>
      && reorg.common in g.blocks && reorg.oldBest in g.blocks && reorg.newBest in g.blocks
      && reorg.common in g.Chain(reorg.oldBest) && reorg.common in g.Chain(reorg.newBest)
      && g.Height(reorg.oldBest) > g.Height(reorg.common)
  }

  /** `p` is the newest block that the chains of `x` and `y` share. */
  ghost predicate Fork(g: Tree, x: Id, y: Id, p: Id) {
    && g.Valid() && x in g.blocks && y in g.blocks && p in g.blocks && p in g.Chain(x) && p in g.Chain(y)
    && forall c :: c in g.Chain(x) && c in g.Chain(y) ==> c in g.Chain(p)
  }

  /** Two chains have one newest shared block only. */
  lemma ForkUnique(g: Tree, x: Id, y: Id, p: Id, q: Id)
    requires Fork(g, x, y, p) && Fork(g, x, y, q)
    ensures p == q
  {
    hide Tree.Chain;
    ChainOrder(g, p, q);
    ChainOrder(g, q, p);
  }

  /** The nearest valid ancestor of a new block is the fork of its chain and the valid one; with a
  single head, of the old best block and the new one. */
  lemma ForkOfNew(g: Tree, b: Id, heads: set<Id>, best: Id, tip: Id, p: Id)
    requires g.Valid() && tip in g.blocks && b in g.parentOf && b in g.blocks && g.parentOf[b] in g.blocks && b !in g.Chain(tip)
    requires p in g.blocks && p in g.Chain(g.parentOf[b]) && p in g.Chain(tip)
    requires forall c :: c in g.Chain(g.parentOf[b]) && c in g.Chain(tip) ==> c in g.Chain(p)
    requires heads <= g.blocks && best in heads && IsCommon(g, heads, tip)
    ensures Fork(g, b, tip, p) && (heads == {best} ==> Fork(g, b, best, p))
  {
    hide Tree.Chain;
    TieChains(g, b, tip, p);
    if heads == {best} {
      ChainIsBlocks(g, best);
      ChainIsBlocks(g, tip);
      assert g.Chain(best) == g.Chain(tip);
    }
  }

  /** The block is alone on the head of the single best chain. */
  method ExtendBest(g: Tree, b: Id, voided: set<Id>, score: map<Id, nat>, first: FirstBlock, tips: seq<Id>, best: Id, ghost tip: Id)
    returns (score': map<Id, nat>, first': FirstBlock)
    requires Arriving(g, b, voided, score, first, tips, best, tip)
    requires g.parentOf[b] !in voided && forall c :: c in g.parentOf && g.parentOf[c] == g.parentOf[b] ==> c == b
    ensures Best(g, voided, score', first', [b], b, b) && g.parentOf[b] == best
  {
    hide Tree.TxReaches, Tree.TxPast, Tree.Past, Tree.NewTxs, Tree.Chain, Tree.Score, FirstExact, ScoresExact, Heads, IsCommon, ScoresKnown;
    ArrivingParts(g, b, voided, score, first, tips, best, tip);
    SoleHead(g, b, voided, score, first, tips, best, tip);
    ChainIsBlocks(g, tip);
    var sum, p;
    sum, first', p := CalculateScore(g, voided, score, first, b, true, tip);
    score' := score[b := sum];
    NewTxsAreNew(g, b);
    ScoreStep(g, b);
    assert ValidChain(g, voided, first', b);
    BlockWins(g, b, voided, voided, score, first, first', tips, best, tip);
  }

  /** A block arrives anywhere but alone on the head of the single best chain. */
  method ResolveBlock(g: Tree, b: Id, voided: set<Id>, score: map<Id, nat>, first: FirstBlock, tips: seq<Id>, best: Id, ghost tip: Id)
    returns (voided': set<Id>, score': map<Id, nat>, first': FirstBlock, tips': seq<Id>, best': Id, reorg: Reorg, ghost tip': Id)
    requires Arriving(g, b, voided, score, first, tips, best, tip)
    ensures Best(g, voided', score', first', tips', best', tip') && ReorgSound(g, reorg)
    ensures reorg.Reorg? ==> reorg.oldBest == best && reorg.newBest == b && best' == b
    ensures best' == b ==> tips' == [b] && tip' == b && (reorg.NoReorg? ==> g.parentOf[b] == best == tip)
    ensures reorg.Reorg? ==> Fork(g, b, tip, reorg.common) && (Elements(tips) == {best} ==> Fork(g, b, best, reorg.common))
    ensures best' != b ==> tip' in g.blocks && tip' in g.Chain(tip)
    ensures best' != b ==> best' == best && b in voided' && reorg.NoReorg?
  {
    hide Tree.TxReaches, Tree.TxPast, Tree.Past, Tree.NewTxs, Tree.Chain, Tree.Score, FirstExact, ScoresExact, Heads, IsCommon, ScoresKnown;
    hide ValidChain, Best, Tree.Height, Fork;
    ArrivingParts(g, b, voided, score, first, tips, best, tip);
    ChainIsBlocks(g, tip);
    ChainIsBlocks(g, g.parentOf[b]);
    HeadsScore(g, b, tips, best);
    BestScore(g, b, voided, score, first, tips, best, tip);
    var sum, marks, p := CalculateScore(g, voided, score, first, b, false, tip);
    voided', first', score', tips', best', reorg, tip' := voided + {b}, first, score[b := sum], tips, best, NoReorg, tip;
    if sum < score[best] {
      BlockLoses(g, b, voided, score, first, tips, best, tip);
    } else {
      HeadsAbove(g, b, voided, score, first, tips, best, tip);
      voided', first' := AddVoidedByToMultipleChains(g, voided', first, tips, p, tip);
      if sum > score[best] {
        voided', first' := TakeOver(g, b, voided', score, first', p);
        BlockWins(g, b, voided, voided', score, first, first', tips, best, tip);
        BelowBoth(g, b, Elements(tips), best, tip, p);
        TipsElements(tips, p);
        if p !in tips {
          ForkOfNew(g, b, Elements(tips), best, tip, p);
          reorg := Reorg(p, best, b);
        }
        tips', best', tip' := [b], b, b;
      } else {
        BlockTies(g, b, voided, voided', score, first, first', tips, best, tip, p);
        tips', tip' := tips + [b], p;
      }
    }
  }

  lemma BestScore(g: Tree, b: Id, voided: set<Id>, score: map<Id, nat>, first: FirstBlock, tips: seq<Id>, best: Id, tip: Id)
    requires Arriving(g, b, voided, score, first, tips, best, tip)
    ensures best in score && best in g.blocks && score[best] == g.Score(best)
  {
    hide Tree.Score, Tree.Chain;
  }

  lemma HeadsAbove(g: Tree, b: Id, voided: set<Id>, score: map<Id, nat>, first: FirstBlock, tips: seq<Id>, best: Id, tip: Id)
    requires Arriving(g, b, voided, score, first, tips, best, tip)
    ensures |tips| > 0 && ValidChain(g, voided + {b}, first, tip)
    ensures forall k :: 0 <= k < |tips| ==> tips[k] in g.blocks && tip in g.Chain(tips[k])
  {
    hide Tree.Score, Tree.Chain, FirstExact;
    ChainIsBlocks(g, tip);
    forall k | 0 <= k < |tips| ensures tips[k] in g.blocks && tip in g.Chain(tips[k]) {
      assert tips[k] in Elements(tips);
    }
  }

  /** The new block wins: its chain is marked and un-voided. */
  method TakeOver(g: Tree, b: Id, voided: set<Id>, score: map<Id, nat>, first: FirstBlock, p: Id)
    returns (voided': set<Id>, first': FirstBlock)
    requires ValidChain(g, voided, first, p) && b in voided && ScoresKnown(g, score, b)
    requires b in g.parentOf && b in g.blocks && g.parentOf[b] in g.blocks && b !in g.Chain(g.parentOf[b]) && p in g.Chain(g.parentOf[b])
    ensures ValidChain(g, voided', first', b)
  {
    hide Tree.TxReaches, Tree.TxPast, Tree.Past, Tree.NewTxs, Tree.Chain, Tree.Score, FirstExact, ScoresKnown;
    assert voided + {b} == voided;
    NewTxsAreNew(g, b);
    var sum, q;
    sum, first', q := CalculateScore(g, voided, score, first, b, true, p);
    voided' := RemoveVoidedByFromChain(g, voided, b, p);
  }

  lemma BelowBoth(g: Tree, b: Id, heads: set<Id>, best: Id, tip: Id, p: Id)
    requires g.Valid() && b in g.parentOf && b in g.blocks && g.parentOf[b] in g.blocks && tip in g.blocks && heads <= g.blocks
    requires IsCommon(g, heads, tip) && best in heads && p in g.blocks && p in g.Chain(g.parentOf[b]) && p in g.Chain(tip)
    requires forall x :: x in heads ==> g.Score(x) == g.Score(best)
    requires g.Score(g.parentOf[b]) <= g.Score(best)
    ensures p in g.Chain(best) && p in g.Chain(b)
    ensures p !in heads ==> g.Height(best) > g.Height(p)
    ensures p in heads ==> g.parentOf[b] == best == tip
  {
    hide Tree.Score, Tree.Chain, Tree.Height;
    ChainIsBlocks(g, tip);
    assert tip in g.Chain(best);
    InAllChains(g, best, tip, p);
    NewTxsAreNew(g, b);
    ChainOrder(g, best, p);
    if p in heads {
      if p != best {
        ScoreBelow(g, best, p);
      }
      ChainOrder(g, best, tip);
      ChainOrder(g, tip, p);
      ScoreBelow(g, g.parentOf[b], p);
    }
  }

  lemma TipsElements(tips: seq<Id>, p: Id)
    ensures p in tips <==> p in Elements(tips)
  {
  }

  lemma {:induction false} ScoreBelow(g: Tree, x: Id, y: Id)
    requires g.Valid() && x in g.blocks && y in g.Chain(x)
    ensures y in g.blocks && g.Score(y) <= g.Score(x) && (y != x ==> g.Score(y) < g.Score(x))
    decreases g.full.ts[x]
  {
    hide Tree.Score;
    ChainOrder(g, x, y);
    if y != x {
      ParentOlder(g, x);
      ScoreStep(g, x);
      ScoreBelow(g, g.parentOf[x], y);
    }
  }
}
