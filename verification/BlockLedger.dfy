/** Blocks and transactions arriving over whole runs: the best chain, scores, first blocks and the
state roots of executed blocks. */
module BlockLedger {
  import opened Graph
  import opened Traversal
  import opened BlockTree
  import opened BlockScore
  import opened BlockConsensus
  import opened NanoRoots

  // ----- growing the tree -----

  /** What verification demands of a block: a known older block as parent and known older transactions. */
  ghost predicate AcceptableBlock(g: Tree, id: Id, parent: Id, txs: set<Id>, ts: nat, w: nat) {
    && g.Valid() && id !in g.full.deps && parent in g.blocks && txs <= g.full.deps.Keys && txs !! g.blocks && w > 0
    && (forall p :: p in txs + {parent} ==> p in g.full.deps && g.full.ts[p] < ts)
  }

  ghost predicate AcceptableTx(g: Tree, id: Id, deps: set<Id>, ts: nat, w: nat) {
    && g.Valid() && id !in g.full.deps && w > 0 && (forall p :: p in deps ==> p in g.full.deps && g.full.ts[p] < ts)
  }

  function WithBlock(g: Tree, id: Id, parent: Id, txs: set<Id>, ts: nat, w: nat): Tree {
    Tree(Dag(g.full.deps[id := txs + {parent}], g.full.ts[id := ts]), g.blocks + {id}, g.parentOf[id := parent], g.genesis, g.work[id := w])
  }

  function WithTx(g: Tree, id: Id, deps: set<Id>, ts: nat, w: nat): Tree {
    Tree(Dag(g.full.deps[id := deps], g.full.ts[id := ts]), g.blocks, g.parentOf, g.genesis, g.work[id := w])
  }

  lemma FullGrows(d: Dag, id: Id, deps: set<Id>, ts: nat)
    requires d.Valid() && id !in d.deps && forall p :: p in deps ==> p in d.deps && d.ts[p] < ts
    ensures var e := Dag(d.deps[id := deps], d.ts[id := ts]); e.Valid() && Extends(d, e)
  {
  }

  lemma TreeGrowsByTx(g: Tree, id: Id, deps: set<Id>, ts: nat, w: nat)
    requires AcceptableTx(g, id, deps, ts, w)
    ensures WithTx(g, id, deps, ts, w).Valid() && Grown(g, WithTx(g, id, deps, ts, w))
  {
    hide Extends;
    FullGrows(g.full, id, deps, ts);
    hide Dag.Valid;
    KeysGrow(g.work, id, w);
    KeysGrow(g.full.deps, id, deps);
  }

  lemma TreeGrowsByBlock(g: Tree, id: Id, parent: Id, txs: set<Id>, ts: nat, w: nat)
    requires AcceptableBlock(g, id, parent, txs, ts, w)
    ensures var h := WithBlock(g, id, parent, txs, ts, w);
            && h.Valid() && Grown(g, h) && h.blocks == g.blocks + {id} && id in h.parentOf && h.parentOf[id] == parent
            && forall c :: c in h.parentOf ==> h.parentOf[c] != id
  {
    hide Extends, Dag.Valid, Grown;
    FullGrows(g.full, id, txs + {parent}, ts);
    GrownByBlock(g, id, parent, txs, ts, w);
    hide Tree.Valid;
    ParentsStay(g, id, parent, txs, ts, w);
    BlockTreeValid(g, id, parent, txs, ts, w);
  }

  lemma GrownByBlock(g: Tree, id: Id, parent: Id, txs: set<Id>, ts: nat, w: nat)
    requires id !in g.full.deps && g.blocks <= g.full.deps.Keys && g.parentOf.Keys <= g.blocks && g.work.Keys == g.full.deps.Keys
    requires Extends(g.full, WithBlock(g, id, parent, txs, ts, w).full)
    ensures Grown(g, WithBlock(g, id, parent, txs, ts, w))
  {
    hide Extends;
  }

  lemma BlockTreeValid(g: Tree, id: Id, parent: Id, txs: set<Id>, ts: nat, w: nat)
    requires AcceptableBlock(g, id, parent, txs, ts, w)
    ensures WithBlock(g, id, parent, txs, ts, w).Valid()
  {
    KeysStay(g, id, parent, txs, ts, w);
    ParentsStay(g, id, parent, txs, ts, w);
    hide AcceptableBlock, Dag.Valid;
  }

  lemma KeysStay(g: Tree, id: Id, parent: Id, txs: set<Id>, ts: nat, w: nat)
    requires AcceptableBlock(g, id, parent, txs, ts, w)
    ensures var h := WithBlock(g, id, parent, txs, ts, w);
            && h.full.Valid() && h.work.Keys == h.full.deps.Keys && (forall v :: v in h.work ==> h.work[v] > 0)
            && h.blocks <= h.full.deps.Keys && h.genesis in h.blocks && h.full.deps[h.genesis] == {}
            && h.parentOf.Keys == h.blocks - {h.genesis}
  {
    hide Dag.Valid, Extends;
    FullGrows(g.full, id, txs + {parent}, ts);
    KeysGrow(g.work, id, w);
    KeysGrow(g.full.deps, id, txs + {parent});
    KeysGrow(g.parentOf, id, parent);
  }

  lemma ParentsStay(g: Tree, id: Id, parent: Id, txs: set<Id>, ts: nat, w: nat)
    requires AcceptableBlock(g, id, parent, txs, ts, w)
    ensures var h := WithBlock(g, id, parent, txs, ts, w);
            && (forall b :: b in h.parentOf ==> h.parentOf[b] in h.blocks && h.parentOf[b] in h.full.deps[b])
            && (forall b, p :: b in h.parentOf && p in h.full.deps[b] && p in h.blocks ==> p == h.parentOf[b])
            && (forall c :: c in h.parentOf ==> h.parentOf[c] != id)
  {
  }

  lemma FirstExactGrown(g: Tree, h: Tree, tip: Id, first: FirstBlock)
    requires g.Valid() && h.Valid() && Grown(g, h) && tip in g.blocks && FirstExact(g, tip, first)
    ensures FirstExact(h, tip, first)
  {
    hide Tree.Chain, Tree.NewTxs, Tree.Score, Tree.Past, Tree.Height, Tree.Valid, Extends;
    BlockGrown(g, h, tip);
    ChainIsBlocks(g, tip);
    forall t | t in first ensures t in h.NewTxs(first[t]) {
      BlockGrown(g, h, first[t]);
    }
    forall t, c | c in h.Chain(tip) && c in h.blocks && t in h.NewTxs(c) ensures t in first && first[t] == c {
      BlockGrown(g, h, c);
    }
  }

  /** Facts about old blocks, in the grown tree. */
  ghost predicate SameBlocks(g: Tree, h: Tree)
    requires g.Valid() && h.Valid() && g.blocks <= h.blocks
  {
    forall c :: c in g.blocks ==> g.Chain(c) == h.Chain(c) && g.Score(c) == h.Score(c)
  }

  lemma BlocksStay(g: Tree, h: Tree)
    requires g.Valid() && h.Valid() && Grown(g, h)
    ensures g.blocks <= h.blocks && SameBlocks(g, h)
  {
    hide Tree.Chain, Tree.NewTxs, Tree.Score, Tree.Past, Tree.Height, Tree.Valid, Extends;
    forall c | c in g.blocks ensures g.Chain(c) == h.Chain(c) && g.Score(c) == h.Score(c) {
      BlockGrown(g, h, c);
    }
  }

  lemma CommonStays(g: Tree, h: Tree, heads: set<Id>, tip: Id)
    requires g.Valid() && h.Valid() && g.blocks <= h.blocks && SameBlocks(g, h) && tip in g.blocks && heads <= g.blocks && heads != {}
    requires IsCommon(g, heads, tip)
    ensures IsCommon(h, heads, tip)
  {
    ChainIsBlocks(h, tip);
    hide Tree.Chain, Tree.Score, Tree.Valid;
    forall c | c in h.blocks ensures c in h.Chain(tip) <==> forall x :: x in heads ==> c in h.Chain(x) {
      if c in g.blocks {
        assert c in g.Chain(tip) <==> forall x :: x in heads ==> c in g.Chain(x);
      } else {
        var x :| x in heads;
        NotOnOldChain(g, h, x, c);
        NotOnOldChain(g, h, tip, c);
      }
    }
  }

  lemma NotOnOldChain(g: Tree, h: Tree, x: Id, c: Id)
    requires g.Valid() && h.Valid() && g.blocks <= h.blocks && SameBlocks(g, h) && x in g.blocks && c !in g.blocks
    ensures c !in h.Chain(x)
  {
    ChainIsBlocks(g, x);
  }

  lemma HeadsStay(g: Tree, h: Tree, tips: seq<Id>)
    requires g.Valid() && h.Valid() && g.blocks <= h.blocks && SameBlocks(g, h) && Elements(tips) == Heads(g, g.blocks)
    ensures Elements(tips) == Heads(h, g.blocks)
  {
    hide Tree.Chain, Tree.Score, Tree.Valid, Elements;
  }

  lemma BlockArrives(g: Tree, h: Tree, id: Id, voided: set<Id>, score: map<Id, nat>, first: FirstBlock, tips: seq<Id>, best: Id, tip: Id)
    requires Best(g, voided, score, first, tips, best, tip) && h.Valid() && Grown(g, h) && id !in g.blocks
    requires h.blocks == g.blocks + {id} && id in h.parentOf && h.parentOf[id] in g.blocks && forall c :: c in h.parentOf ==> h.parentOf[c] != id
    ensures Arriving(h, id, voided, score, first, tips, best, tip)
  {
    hide Tree.Chain, Tree.Score, Tree.Valid, FirstExact, Elements, IsCommon, Heads;
    BlocksStay(g, h);
    assert h.blocks - {id} == g.blocks;
    FirstExactGrown(g, h, tip, first);
    HeadsAreBlocks(g, tips);
    CommonStays(g, h, Elements(tips), tip);
    HeadsStay(g, h, tips);
    NotOnOldChain(g, h, tip, id);
  }

  lemma HeadsAreBlocks(g: Tree, tips: seq<Id>)
    requires g.Valid() && Elements(tips) == Heads(g, g.blocks)
    ensures Elements(tips) <= g.blocks
  {
    hide Tree.Score;
  }

  lemma TxArrives(g: Tree, h: Tree, voided: set<Id>, score: map<Id, nat>, first: FirstBlock, tips: seq<Id>, best: Id, tip: Id)
    requires Best(g, voided, score, first, tips, best, tip) && h.Valid() && Grown(g, h) && h.blocks == g.blocks
    ensures Best(h, voided, score, first, tips, best, tip)
  {
    hide Tree.Chain, Tree.Score, Tree.Valid, FirstExact, Elements, IsCommon, Heads;
    BlocksStay(g, h);
    FirstExactGrown(g, h, tip, first);
    HeadsAreBlocks(g, tips);
    CommonStays(g, h, Elements(tips), tip);
    HeadsStay(g, h, tips);
  }

  // ----- whole runs -----

  /** What holds between two arrivals. */
  ghost predicate Consistent(g: Tree, voided: set<Id>, score: map<Id, nat>, first: FirstBlock, tips: seq<Id>, best: Id, tip: Id,
                             exec: (Root, Id) -> Root, empty: Root, roots: Roots)
  {
    && Best(g, voided, score, first, tips, best, tip)
    && roots.Keys <= g.blocks && RootsReady(g, exec, empty, roots, tip)
    && (RootsExact(g, exec, empty, roots, tip) || g.blocks == {g.genesis})
  }

  /** The whole consensus update for a block: resolve it against the heads, then execute. */
  method BlockArrived(g: Tree, h: Tree, voided: set<Id>, score: map<Id, nat>, first: FirstBlock, tips: seq<Id>, best: Id, ghost tip: Id,
                      exec: (Root, Id) -> Root, empty: Root, roots: Roots, b: Id)
    returns (voided': set<Id>, score': map<Id, nat>, first': FirstBlock, tips': seq<Id>, best': Id, roots': Roots, reorg: Reorg, ghost tip': Id)
    requires Consistent(g, voided, score, first, tips, best, tip, exec, empty, roots)
    requires h.Valid() && Grown(g, h) && b !in g.blocks && h.blocks == g.blocks + {b}
    requires b in h.parentOf && h.parentOf[b] in g.blocks && forall c :: c in h.parentOf ==> h.parentOf[c] != b
    ensures Consistent(h, voided', score', first', tips', best', tip', exec, empty, roots')
    ensures ReorgSound(h, reorg) && (reorg.Reorg? ==> reorg.oldBest == best && reorg.newBest == b == best')
    ensures reorg.Reorg? ==> Fork(h, b, tip, reorg.common) && (Elements(tips) == {best} ==> Fork(h, b, best, reorg.common))
    ensures best' == b || best' == best
    ensures best' == b ==> tips' == [b]
    ensures best' == b && reorg.NoReorg? ==> h.parentOf[b] == best
  {
    hide Tree.Chain, Tree.Score, Tree.Valid, Tree.Height, Fold, RootsExact, Best, Arriving, Extends;
    BestParts(g, voided, score, first, tips, best, tip);
    BlockArrives(g, h, b, voided, score, first, tips, best, tip);
    ArrivingParts(h, b, voided, score, first, tips, best, tip);
    var parent := h.parentOf[b];
    var siblings := set c | c in h.parentOf && h.parentOf[c] == parent;
    if g.blocks == {g.genesis} {
      FirstBlockExtends(g, h, b, voided, score, first, tips, best, tip);
    }
    reorg := NoReorg;
    var common := b;
    if siblings == {b} && parent !in voided {
      forall c | c in h.parentOf && h.parentOf[c] == parent ensures c == b {
        assert c in siblings;
      }
      SoleHead(h, b, voided, score, first, tips, best, tip);
      score', first' := ExtendBest(h, b, voided, score, first, tips, best, tip);
      voided', tips', best', tip' := voided, [b], b, b;
    } else {
      voided', score', first', tips', best', reorg, tip' := ResolveBlock(h, b, voided, score, first, tips, best, tip);
      common := if reorg.Reorg? then reorg.common else b;
    }
    RootsCarry(g, h, exec, empty, roots, tip);
    BestTip(h, voided', score', first', tips', best', tip', b);
    roots' := ExecuteNanoContracts(h, exec, empty, voided', roots, b, reorg.Reorg?, common, tip);
    RootsAgain(h, exec, empty, roots, roots', voided', tip, tip', b);
  }

  lemma BestParts(g: Tree, voided: set<Id>, score: map<Id, nat>, first: FirstBlock, tips: seq<Id>, best: Id, tip: Id)
    requires Best(g, voided, score, first, tips, best, tip)
    ensures g.Valid() && tip in g.blocks
  {
  }

  /** The first block ever is alone on the genesis, which is valid. */
  lemma FirstBlockExtends(g: Tree, h: Tree, b: Id, voided: set<Id>, score: map<Id, nat>, first: FirstBlock, tips: seq<Id>, best: Id, tip: Id)
    requires Arriving(h, b, voided, score, first, tips, best, tip) && h.blocks == g.blocks + {b} && b !in g.blocks && g.genesis == h.genesis
    requires g.blocks == {g.genesis}
    ensures h.parentOf[b] !in voided && (set c | c in h.parentOf && h.parentOf[c] == h.parentOf[b]) == {b}
  {
    hide Tree.Score, FirstExact, Heads, IsCommon, ScoresExact;
    ChainIsBlocks(h, tip);
    assert h.parentOf.Keys == {b};
  }

  lemma RootsCarry(g: Tree, h: Tree, exec: (Root, Id) -> Root, empty: Root, roots: Roots, tip: Id)
    requires g.Valid() && h.Valid() && Grown(g, h) && tip in g.blocks && RootsReady(g, exec, empty, roots, tip)
    ensures tip in h.blocks && RootsReady(h, exec, empty, roots, tip)
    ensures RootsExact(g, exec, empty, roots, tip) ==> RootsExact(h, exec, empty, roots, tip)
  {
    hide RootsExact, Tree.Valid, Extends;
    if RootsExact(g, exec, empty, roots, tip) {
      RootsGrown(g, h, exec, empty, roots, tip);
    }
  }

  lemma BestTip(h: Tree, voided: set<Id>, score: map<Id, nat>, first: FirstBlock, tips: seq<Id>, best: Id, tip: Id, b: Id)
    requires Best(h, voided, score, first, tips, best, tip) && b in h.blocks
    ensures tip in h.blocks && (tip == b ==> b !in voided)
  {
    hide Tree.Score, FirstExact, Heads, IsCommon, ScoresExact;
    ChainIsBlocks(h, tip);
  }

  lemma RootsAgain(h: Tree, exec: (Root, Id) -> Root, empty: Root, roots: Roots, roots': Roots, voided': set<Id>, tip: Id, tip': Id, b: Id)
    requires h.Valid() && tip in h.blocks && tip' in h.blocks && b in h.blocks
    requires b in voided' ==> roots' == roots && tip' in h.Chain(tip) && RootsExact(h, exec, empty, roots, tip)
    requires b !in voided' ==> tip' == b && RootsExact(h, exec, empty, roots', b)
    ensures RootsExact(h, exec, empty, roots', tip')
  {
    hide Fold;
    if b in voided' {
      ChainOrder(h, tip, tip');
    }
  }

  /** The ledger of blocks and transactions, updated in place.  Every operation keeps `Inv`, so it
  holds in every state any run reaches. */
  class BlockLedger {
    var tree: Tree
    var voided: set<Id>
    var score: map<Id, nat>
    var firstBlock: FirstBlock
    var tips: seq<Id>
    /** The block on top of the height index. */
    var best: Id
    var roots: Roots
    const exec: (Root, Id) -> Root
    const emptyRoot: Root
    ghost var tip: Id

    ghost predicate Inv()
      reads this
    {
      Consistent(tree, voided, score, firstBlock, tips, best, tip, exec, emptyRoot, roots)
    }

    /** A ledger that holds only the genesis block. */
    constructor (genesis: Id, ts: nat, w: nat, exec: (Root, Id) -> Root, emptyRoot: Root)
      requires w > 0
      ensures Inv() && tree == OnlyGenesis(genesis, ts, w) && voided == {} && this.exec == exec && this.emptyRoot == emptyRoot
    {
      tree, voided, score, firstBlock := OnlyGenesis(genesis, ts, w), {}, map[genesis := w], map[];
      tips, best, roots, tip := [genesis], genesis, map[], genesis;
      this.exec, this.emptyRoot := exec, emptyRoot;
      new;
      GenesisConsistent(genesis, ts, w, exec, emptyRoot);
    }

    method NewTransaction(id: Id, deps: set<Id>, ts: nat, w: nat)
      requires Inv() && AcceptableTx(tree, id, deps, ts, w)
      modifies this`tree
      ensures Inv() && tree == WithTx(old(tree), id, deps, ts, w)
    {
      hide Consistent, WithTx, AcceptableTx;
      TxConsistent(tree, id, deps, ts, w, voided, score, firstBlock, tips, best, tip, exec, emptyRoot, roots);
      tree := WithTx(tree, id, deps, ts, w);
    }

    method NewBlock(id: Id, parent: Id, txs: set<Id>, ts: nat, w: nat) returns (reorg: Reorg)
      requires Inv() && AcceptableBlock(tree, id, parent, txs, ts, w)
      modifies this
      ensures tree == WithBlock(old(tree), id, parent, txs, ts, w) && tree.Valid()
      ensures Inv() && ReorgSound(tree, reorg)
      ensures reorg.Reorg? ==> reorg.oldBest == old(best) && reorg.newBest == id == best
      ensures reorg.Reorg? ==> ForkOfValid(old(tree), old(voided), tree, id, reorg.common)
      ensures reorg.Reorg? && Elements(old(tips)) == {old(best)} ==> Fork(tree, id, old(best), reorg.common)
      ensures (best == id || best == old(best)) && (best == id ==> tips == [id])
      ensures best == id && reorg.NoReorg? ==> parent == old(best)
    {
      hide ForkOfValid, Fork, Consistent, WithBlock, AcceptableBlock, Tree.Valid, Grown, ReorgSound;
      var h := WithBlock(tree, id, parent, txs, ts, w);
      BlockFacts(tree, id, parent, txs, ts, w);
      var voided', score', first', tips', best', roots';
      ghost var tip';
      voided', score', first', tips', best', roots', reorg, tip' :=
        BlockArrived(tree, h, voided, score, firstBlock, tips, best, tip, exec, emptyRoot, roots, id);
      if reorg.Reorg? {
        ForkIsValid(tree, h, voided, score, firstBlock, tips, best, tip, exec, emptyRoot, roots, id, reorg.common);
      }
      tree, voided, score, firstBlock, tips, best, roots, tip := h, voided', score', first', tips', best', roots', tip';
    }
  }

  /** `common` is the newest block in the chain of `id` that was valid in `g`. */
  ghost predicate ForkOfValid(g: Tree, voided: set<Id>, h: Tree, id: Id, common: Id) {
    && h.Valid() && id in h.blocks && common in h.blocks && common in h.Chain(id) && common in g.blocks && common !in voided
    && forall c :: c in h.Chain(id) && c in g.blocks && c !in voided ==> c in h.Chain(common)
  }

  lemma ForkIsValid(g: Tree, h: Tree, voided: set<Id>, score: map<Id, nat>, first: FirstBlock, tips: seq<Id>, best: Id, tip: Id,
                    exec: (Root, Id) -> Root, empty: Root, roots: Roots, id: Id, common: Id)
    requires Consistent(g, voided, score, first, tips, best, tip, exec, empty, roots) && h.Valid() && Grown(g, h) && Fork(h, id, tip, common)
    ensures ForkOfValid(g, voided, h, id, common)
  {
    hide Tree.Score, FirstExact, Heads, IsCommon, ScoresExact, Tree.Chain, RootsExact, Fold;
    ChainGrown(g, h, tip);
    ChainIsBlocks(g, tip);
  }

  function OnlyGenesis(genesis: Id, ts: nat, w: nat): Tree {
    Tree(Dag(map[genesis := {}], map[genesis := ts]), {genesis}, map[], genesis, map[genesis := w])
  }

  lemma GenesisConsistent(genesis: Id, ts: nat, w: nat, exec: (Root, Id) -> Root, empty: Root)
    requires w > 0
    ensures Consistent(OnlyGenesis(genesis, ts, w), {}, map[genesis := w], map[], [genesis], genesis, genesis, exec, empty, map[])
  {
    var g := OnlyGenesis(genesis, ts, w);
    assert g.Valid();
    assert g.Chain(genesis) == {genesis} && g.Past(genesis) == {} && g.NewTxs(genesis) == {};
    WorkOfAdd(g.work, {}, genesis);
    assert {} + {genesis} == {genesis};
    assert g.Score(genesis) == w;
    assert Elements([genesis]) == {genesis} == Heads(g, g.blocks);
  }

  lemma BlockFacts(g: Tree, id: Id, parent: Id, txs: set<Id>, ts: nat, w: nat)
    requires AcceptableBlock(g, id, parent, txs, ts, w)
    ensures var h := WithBlock(g, id, parent, txs, ts, w);
            && h.Valid() && Grown(g, h) && id !in g.blocks && h.blocks == g.blocks + {id}
            && id in h.parentOf && h.parentOf[id] == parent && parent in g.blocks && forall c :: c in h.parentOf ==> h.parentOf[c] != id
  {
    TreeGrowsByBlock(g, id, parent, txs, ts, w);
    hide Grown, Dag.Valid;
  }

  lemma TxConsistent(g: Tree, id: Id, deps: set<Id>, ts: nat, w: nat, voided: set<Id>, score: map<Id, nat>, first: FirstBlock, tips: seq<Id>,
                     best: Id, tip: Id, exec: (Root, Id) -> Root, empty: Root, roots: Roots)
    requires Consistent(g, voided, score, first, tips, best, tip, exec, empty, roots) && AcceptableTx(g, id, deps, ts, w)
    ensures Consistent(WithTx(g, id, deps, ts, w), voided, score, first, tips, best, tip, exec, empty, roots)
  {
    hide RootsExact, Tree.Valid, Extends, Best;
    var h := WithTx(g, id, deps, ts, w);
    TreeGrowsByTx(g, id, deps, ts, w);
    BestParts(g, voided, score, first, tips, best, tip);
    TxArrives(g, h, voided, score, first, tips, best, tip);
    RootsCarry(g, h, exec, empty, roots, tip);
  }

  // ----- what the invariant says -----

  /** The valid blocks are exactly what the chains of all best-scored blocks have in common, the
  cached tips are exactly those blocks, and at most one of them is valid. */
  lemma BestChain(g: Tree, voided: set<Id>, score: map<Id, nat>, first: FirstBlock, tips: seq<Id>, best: Id, tip: Id,
                  exec: (Root, Id) -> Root, empty: Root, roots: Roots, c: Id, x: Id, y: Id)
    requires Consistent(g, voided, score, first, tips, best, tip, exec, empty, roots) && g.Valid()
    ensures c in g.blocks ==> (c !in voided <==> forall h :: h in tips && h in g.blocks ==> c in g.Chain(h))
    ensures c in tips <==> c in g.blocks && forall d :: d in g.blocks ==> g.Score(d) <= g.Score(c)
    ensures x in tips && y in tips && x !in voided && y !in voided ==> x == y
  {
    hide Tree.Score, Tree.Chain, FirstExact, RootsExact, ScoresExact;
    assert forall h :: h in tips <==> h in Elements(tips);
    HeadsAreBlocks(g, tips);
    if x in tips && y in tips && x !in voided && y !in voided {
      AtMostOneValidHead(g, voided, score, first, tips, best, tip, x, y);
    }
  }

  /** A transaction's first block is the earliest valid block that reaches it through transactions;
  it has none exactly when no valid block does. */
  lemma FirstBlockIsEarliest(g: Tree, voided: set<Id>, score: map<Id, nat>, first: FirstBlock, tips: seq<Id>, best: Id, tip: Id,
                             exec: (Root, Id) -> Root, empty: Root, roots: Roots, t: Id)
    requires Consistent(g, voided, score, first, tips, best, tip, exec, empty, roots) && g.Valid() && t in g.full.deps && t !in g.blocks
    ensures t in first ==> first[t] in g.blocks && first[t] !in voided && g.TxReaches(t, first[t])
    ensures forall c :: c in g.blocks && c !in voided && g.TxReaches(t, c) ==>
                          t in first && first[t] in g.full.ts && g.full.ts[first[t]] <= g.full.ts[c]
  {
    hide Tree.Score, Tree.TxReaches, RootsExact, ScoresExact, Heads, IsCommon, Tree.Past;
    if t in first {
      FirstReaches(g, tip, first, t);
    }
    forall c | c in g.blocks && c !in voided && g.TxReaches(t, c)
      ensures t in first && first[t] in g.full.ts && g.full.ts[first[t]] <= g.full.ts[c]
    {
      FirstNotLater(g, tip, first, t, c);
    }
  }

  lemma FirstReaches(g: Tree, tip: Id, first: FirstBlock, t: Id)
    requires g.Valid() && tip in g.blocks && FirstExact(g, tip, first) && t in first
    ensures first[t] in g.Chain(tip) && first[t] in g.blocks && g.TxReaches(t, first[t])
  {
    hide Tree.TxReaches, Tree.Past, Tree.Chain;
  }

  lemma FirstNotLater(g: Tree, tip: Id, first: FirstBlock, t: Id, c: Id)
    requires g.Valid() && tip in g.blocks && FirstExact(g, tip, first) && c in g.Chain(tip) && c in g.blocks
    requires t in g.full.deps && t !in g.blocks && g.TxReaches(t, c)
    ensures t in first && first[t] in g.full.ts && g.full.ts[first[t]] <= g.full.ts[c]
  {
    hide *;
    InPast(g, c, t);
    InTimestamps(g, c);
    PastInKnown(g, tip, first, c, t);
    FirstIsKnown(g, first, g.full.ts[c], t);
  }

  lemma FirstIsKnown(g: Tree, first: FirstBlock, ts: nat, t: Id)
    requires t in Known(g, first, ts)
    ensures t in first && first[t] in g.full.ts && g.full.ts[first[t]] <= ts
  {
  }

  lemma InPast(g: Tree, c: Id, t: Id)
    requires g.Valid() && c in g.blocks && t in g.full.deps && t !in g.blocks && g.TxReaches(t, c)
    ensures t in g.Past(c)
  {
    hide Tree.TxReaches;
    assert t in g.TxPast(c);
    if c == g.genesis {
      GenesisReachesNothing(g, t);
    }
  }

  lemma GenesisReachesNothing(g: Tree, t: Id)
    requires g.Valid() && g.TxReaches(t, g.genesis)
    ensures t == g.genesis
  {
  }
}
