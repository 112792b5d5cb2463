/** State roots: executing the blocks that joined the best chain, from the right parent root. */
module NanoRoots {
  import opened Graph
  import opened BlockTree
  import NanoExecution

  /** A root stands for the state of all contracts. */
  type Root = NanoExecution.State
  type Roots = map<Id, Root>

  /** The root of `b` is the execution of the blocks of its chain, one after the other, from the
  empty state.  `exec` stands for running the calls of one block. */
  ghost function Fold(g: Tree, exec: (Root, Id) -> Root, empty: Root, b: Id): Root
    requires g.Valid() && b in g.blocks
    decreases g.full.ts[b]
  {
    if b == g.genesis then empty else exec(Fold(g, exec, empty, g.parentOf[b]), b)
  }

  /** Every block of the chain of `tip` has its root. */
  ghost predicate RootsExact(g: Tree, exec: (Root, Id) -> Root, empty: Root, roots: Roots, tip: Id)
    requires g.Valid() && tip in g.blocks
  {
    forall c :: c in g.Chain(tip) && c in g.blocks ==> c in roots && roots[c] == Fold(g, exec, empty, c)
  }

  function At(path: seq<Id>, stop: Id, k: nat): Id {
    if k < |path| then path[k] else stop
  }

  /** Blocks from `b` towards the genesis, each the parent of the one before, ending above `stop`. */
  ghost predicate PathTo(g: Tree, b: Id, path: seq<Id>, stop: Id)
    requires g.Valid()
  {
    && stop in g.blocks && At(path, stop, 0) == b
    && (forall k :: 0 <= k < |path| ==> path[k] in g.parentOf && g.parentOf[path[k]] == At(path, stop, k + 1))
  }

  lemma PathStep(g: Tree, b: Id, path: seq<Id>, cur: Id)
    requires g.Valid() && PathTo(g, b, path, cur) && cur in g.parentOf
    ensures PathTo(g, b, path + [cur], g.parentOf[cur]) && g.full.ts[g.parentOf[cur]] < g.full.ts[cur]
  {
    ParentOlder(g, cur);
    var longer, stop := path + [cur], g.parentOf[cur];
    forall k | 0 <= k < |longer| ensures longer[k] in g.parentOf && g.parentOf[longer[k]] == At(longer, stop, k + 1) {
      if k < |path| {
        assert longer[k] == path[k];
      }
    }
  }

  lemma PathAt(g: Tree, b: Id, path: seq<Id>, stop: Id, k: nat)
    requires g.Valid() && PathTo(g, b, path, stop) && k < |path|
    ensures path[k] in g.parentOf && g.parentOf[path[k]] in g.blocks && g.parentOf[path[k]] == At(path, stop, k + 1)
    ensures At(path, stop, k) == path[k] && path[k] in g.blocks
  {
  }

  /** A reorg: everything from the new best block down to the common block runs again. */
  method PathToCommon(g: Tree, roots: Roots, b: Id, common: Id) returns (path: seq<Id>, roots': Roots)
    requires g.Valid() && b in g.blocks && common in g.blocks && common in g.Chain(b)
    ensures common in g.blocks && PathTo(g, b, path, common)
    ensures forall c :: c in g.Chain(common) && c in roots ==> c in roots' && roots'[c] == roots[c]
    ensures forall k :: 0 <= k < |path| ==> path[k] !in roots'
    ensures forall c :: c in roots' ==> c in roots
  {
    hide Tree.Chain, PathTo;
    path, roots' := [], roots;
    var cur := b;
    PathStart(g, b);
    while cur != common
      invariant cur in g.blocks && common in g.Chain(cur) && PathTo(g, b, path, cur)
      invariant forall c :: c in g.Chain(common) && c in roots ==> c in roots' && roots'[c] == roots[c]
      invariant forall k :: 0 <= k < |path| ==> path[k] !in roots'
      invariant forall c :: c in roots' ==> c in roots
      decreases g.full.ts[cur]
    {
      AboveCommon(g, cur, common);
      PathStep(g, b, path, cur);
      roots' := roots' - {cur};
      path := path + [cur];
      cur := g.parentOf[cur];
    }
  }

  lemma PathStart(g: Tree, b: Id)
    requires g.Valid() && b in g.blocks
    ensures PathTo(g, b, [], b)
  {
  }

  lemma AboveCommon(g: Tree, cur: Id, common: Id)
    requires g.Valid() && cur in g.blocks && common in g.blocks && common in g.Chain(cur) && cur != common
    ensures cur in g.parentOf && g.parentOf[cur] in g.blocks && common in g.Chain(g.parentOf[cur]) && cur !in g.Chain(common)
  {
    ParentOlder(g, cur);
    ChainOrder(g, cur, common);
    if cur in g.Chain(common) {
      ChainOrder(g, common, cur);
    }
  }

  /** No reorg: what has no root yet runs, down to the first block that has one. */
  method PathToRoot(g: Tree, roots: Roots, b: Id) returns (path: seq<Id>, stop: Id)
    requires g.Valid() && b in g.blocks
    ensures PathTo(g, b, path, stop) && (stop in roots || stop == g.genesis)
    ensures forall k :: 0 <= k < |path| ==> path[k] !in roots
    ensures b in g.parentOf && b !in roots && g.parentOf[b] in roots ==> path == [b] && stop == g.parentOf[b]
  {
    hide PathTo;
    PathStart(g, b);
    path, stop := [], b;
    while stop !in roots && stop != g.genesis
      invariant stop in g.blocks && PathTo(g, b, path, stop)
      invariant forall k :: 0 <= k < |path| ==> path[k] !in roots
      invariant path == [] ==> stop == b
      invariant b in g.parentOf && g.parentOf[b] in roots && path != [] ==> path == [b] && stop == g.parentOf[b]
      decreases g.full.ts[stop]
    {
      PathStep(g, b, path, stop);
      path := path + [stop];
      stop := g.parentOf[stop];
    }
  }

  /** Runs the path from its oldest block on.  The parent root is always there. */
  method ExecutePath(g: Tree, exec: (Root, Id) -> Root, empty: Root, roots: Roots, b: Id, path: seq<Id>, stop: Id) returns (roots': Roots)
    requires g.Valid() && b in g.blocks && PathTo(g, b, path, stop) && RootsExact(g, exec, empty, roots, stop)
    ensures RootsExact(g, exec, empty, roots', b)
    ensures forall c :: c in roots' ==> c in roots || c in g.blocks
  {
    hide RootsExact, Fold, Tree.Chain, PathTo, At, Tree.Valid;
    PathEnds(g, b, path, stop);
    roots' := roots;
    var i := |path|;
    while i > 0
      invariant 0 <= i <= |path|
      invariant At(path, stop, i) in g.blocks && RootsExact(g, exec, empty, roots', At(path, stop, i))
      invariant forall c :: c in roots' ==> c in roots || c in g.blocks
    {
      i := i - 1;
      PathAt(g, b, path, stop, i);
      RootNext(g, exec, empty, roots', path[i]);
      roots' := roots'[path[i] := exec(roots'[g.parentOf[path[i]]], path[i])];
    }
  }

  lemma PathEnds(g: Tree, b: Id, path: seq<Id>, stop: Id)
    requires g.Valid() && PathTo(g, b, path, stop)
    ensures At(path, stop, 0) == b && At(path, stop, |path|) == stop && stop in g.blocks
  {
  }

  lemma RootNext(g: Tree, exec: (Root, Id) -> Root, empty: Root, roots: Roots, c: Id)
    requires g.Valid() && c in g.parentOf && g.parentOf[c] in g.blocks && RootsExact(g, exec, empty, roots, g.parentOf[c])
    ensures c in g.blocks && g.parentOf[c] in roots
    ensures RootsExact(g, exec, empty, roots[c := exec(roots[g.parentOf[c]], c)], c)
  {
    ParentOlder(g, c);
    ChainIsBlocks(g, g.parentOf[c]);
    if c in g.Chain(g.parentOf[c]) {
      ChainOrder(g, g.parentOf[c], c);
    }
  }

  lemma GenesisRoot(g: Tree, exec: (Root, Id) -> Root, empty: Root, roots: Roots)
    requires g.Valid()
    ensures RootsExact(g, exec, empty, roots[g.genesis := empty], g.genesis)
  {
  }

  /** Facts about the roots of old blocks survive the growth of the tree. */
  lemma {:induction false} FoldGrown(g: Tree, h: Tree, exec: (Root, Id) -> Root, empty: Root, b: Id)
    requires g.Valid() && h.Valid() && Grown(g, h) && b in g.blocks && b in h.blocks
    ensures Fold(g, exec, empty, b) == Fold(h, exec, empty, b)
    decreases g.full.ts[b]
  {
    hide Extends;
    if b != g.genesis {
      ParentOlder(g, b);
      FoldGrown(g, h, exec, empty, g.parentOf[b]);
    }
  }

  lemma RootsGrown(g: Tree, h: Tree, exec: (Root, Id) -> Root, empty: Root, roots: Roots, tip: Id)
    requires g.Valid() && h.Valid() && Grown(g, h) && tip in g.blocks && RootsExact(g, exec, empty, roots, tip)
    ensures tip in h.blocks && RootsExact(h, exec, empty, roots, tip)
  {
    hide Tree.Chain, Fold, Extends, Tree.Valid;
    ChainGrown(g, h, tip);
    ChainIsBlocks(g, tip);
    forall c | c in h.Chain(tip) && c in h.blocks ensures c in roots && roots[c] == Fold(h, exec, empty, c) {
      FoldGrown(g, h, exec, empty, c);
    }
  }

  /** Before the first block the genesis may still lack its root; afterwards no valid block does. */
  ghost predicate RootsReady(g: Tree, exec: (Root, Id) -> Root, empty: Root, roots: Roots, tip: Id)
    requires g.Valid() && tip in g.blocks
  {
    RootsExact(g, exec, empty, roots, tip) || (tip == g.genesis && roots == map[])
  }

  /** Executes block `b` and whatever joined the best chain with it; a voided block is skipped.
  `common` is the common block of a reorg, if one was reported. */
  method ExecuteNanoContracts(g: Tree, exec: (Root, Id) -> Root, empty: Root, voided: set<Id>, roots: Roots, b: Id,
                              isReorg: bool, common: Id, ghost tip: Id)
    returns (roots': Roots)
    requires g.Valid() && b in g.parentOf && b in g.blocks && b !in roots && tip in g.blocks && RootsReady(g, exec, empty, roots, tip)
    requires b !in voided && isReorg ==>
               common in g.blocks && common in g.Chain(b) && common in g.Chain(tip) && RootsExact(g, exec, empty, roots, tip)
    requires b !in voided && !isReorg ==> g.parentOf[b] == tip
    ensures b in voided ==> roots' == roots
    ensures b !in voided ==> RootsExact(g, exec, empty, roots', b)
    ensures forall c :: c in roots' ==> c in roots || c in g.blocks
  {
    hide Tree.Chain, Fold, PathTo, Tree.Valid;
    roots' := roots;
    if b in voided {
      return;
    }
    if isReorg {
      var path, kept := PathToCommon(g, roots, b, common);
      BelowTip(g, exec, empty, roots, kept, tip, common);
      roots' := ExecutePath(g, exec, empty, kept, b, path, common);
    } else {
      ChainIsBlocks(g, tip);
      var path, stop := PathToRoot(g, roots, b);
      if stop !in roots {
        roots' := roots[stop := empty];
        GenesisRoot(g, exec, empty, roots);
      }
      StopIsTip(g, exec, empty, roots, b, path, stop, tip);
      roots' := ExecutePath(g, exec, empty, roots', b, path, stop);
    }
  }

  lemma BelowTip(g: Tree, exec: (Root, Id) -> Root, empty: Root, roots: Roots, kept: Roots, tip: Id, common: Id)
    requires g.Valid() && tip in g.blocks && common in g.Chain(tip) && common in g.blocks && RootsExact(g, exec, empty, roots, tip)
    requires forall c :: c in g.Chain(common) && c in roots ==> c in kept && kept[c] == roots[c]
    ensures RootsExact(g, exec, empty, kept, common)
  {
    hide Fold;
    ChainOrder(g, tip, common);
  }

  lemma StopIsTip(g: Tree, exec: (Root, Id) -> Root, empty: Root, roots: Roots, b: Id, path: seq<Id>, stop: Id, tip: Id)
    requires g.Valid() && b in g.parentOf && tip in g.blocks && g.parentOf[b] == tip && b !in roots && stop in g.blocks
    requires RootsReady(g, exec, empty, roots, tip) && (stop in roots || stop == g.genesis)
    requires g.parentOf[b] in roots ==> path == [b] && stop == g.parentOf[b]
    ensures stop in roots ==> RootsExact(g, exec, empty, roots, stop)
    ensures stop !in roots ==> stop == g.genesis
  {
    hide Fold;
    ChainIsBlocks(g, tip);
  }
}
