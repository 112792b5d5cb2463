/** Block execution and state roots together: replaying a valid block from the root of its parent gives
its own root. */
module NanoChain {
  import opened Wrappers
  import opened Graph
  import opened Traversal
  import opened Ledger
  import opened Voidance
  import opened BlockTree
  import opened NanoExecution
  import opened NanoRoots
  import BL = BlockLedger
  import BlockScore
  import BlockConsensus

  /** The calls of every block in their order, what is voided when they are run, and who runs them. */
  datatype Program = Program(funds: Dag, calls: Id -> seq<Id>, voided: Id -> VoidedBy, run: Id -> Runner, skip: (State, Id) -> State)

  ghost predicate Executable(p: Program, b: Id) {
    && p.funds.Valid() && p.voided(b).Keys == p.funds.deps.Keys && OwnFirst(p.voided(b))
    && Elements(p.calls(b)) <= p.funds.deps.Keys && Distinct(p.calls(b))
  }

  /** The state after the calls of `b`. */
  ghost function StateOf(p: Program, state: State, b: Id): State
    requires Executable(p, b)
  {
    Folded(p.funds, p.voided(b), p.calls(b), p.run(b), p.skip, state, |p.calls(b)|).state
  }

  /** Runs the calls of one block. */
  method ExecuteBlock(p: Program, conf: map<Id, set<Id>>, b: Id, state: State) returns (state': State, status: map<Id, Status>)
    requires Executable(p, b) && conf.Keys == p.funds.deps.Keys
    ensures state' == StateOf(p, state, b)
    ensures forall c :: c in p.calls(b) ==> c in status
  {
    hide StateAfter, Ran, NanoExecution.Executed, Shape, FailedLeft, Sorted;
    var vb', failed;
    vb', failed, status, state' := ExecuteCalls(p.funds, conf, p.voided(b), p.calls(b), p.run(b), p.skip, state);
  }

  /** In any state of any run a valid block that is replayed from the root of its parent gets the root
  it has. */
  method Replay(ledger: BL.BlockLedger, p: Program, conf: map<Id, set<Id>>, b: Id) returns (root: Root)
    requires ledger.Inv() && ledger.tree.Valid() && b in ledger.tree.parentOf && b in ledger.tree.blocks && b !in ledger.voided
    requires Executable(p, b) && conf.Keys == p.funds.deps.Keys
    requires forall s :: ledger.exec(s, b) == StateOf(p, s, b)
    ensures b in ledger.roots && root == ledger.roots[b]
  {
    hide StateOf, Executable;
    RootStep(ledger.tree, ledger.voided, ledger.score, ledger.firstBlock, ledger.tips, ledger.best, ledger.tip,
             ledger.exec, ledger.emptyRoot, ledger.roots, b);
    var status;
    root, status := ExecuteBlock(p, conf, b, ledger.roots[ledger.tree.parentOf[b]]);
  }

  /** A valid block and its parent have roots, one execution apart. */
  lemma RootStep(g: Tree, voided: set<Id>, score: map<Id, nat>, first: BlockScore.FirstBlock, tips: seq<Id>, best: Id, tip: Id,
                 exec: (Root, Id) -> Root, empty: Root, roots: Roots, b: Id)
    requires BL.Consistent(g, voided, score, first, tips, best, tip, exec, empty, roots) && g.Valid()
    requires b in g.parentOf && b in g.blocks && b !in voided
    ensures g.parentOf[b] in roots && b in roots && roots[b] == exec(roots[g.parentOf[b]], b)
  {
    hide Tree.Score, BlockScore.FirstExact, BlockConsensus.ScoresExact, BlockConsensus.Heads, BlockConsensus.IsCommon, Dag.Valid;
    var parent := g.parentOf[b];
    assert parent in g.blocks && b != g.genesis;
    ParentOlder(g, b);
    ChainIsBlocks(g, parent);
    ChainOrder(g, tip, b);
    hide Tree.Chain;
    assert roots[b] == Fold(g, exec, empty, b);
    assert parent in g.Chain(b);
    assert roots[parent] == Fold(g, exec, empty, parent);
  }
}
