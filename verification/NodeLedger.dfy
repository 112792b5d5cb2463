/** Both halves of the consensus together: the best chain decides which blocks are voided, and the
hashes of voided blocks spread through the transactions that spend them. */
module NodeLedger {
  import opened Graph
  import opened Traversal
  import opened Ledger
  import opened Arrival
  import opened BlockTree
  import opened Voidance
  import opened Confirmation
  import opened NanoRoots
  import TransactionConsensus
  import Settlement
  import TL = TransactionLedger
  import BL = BlockLedger
  import BlockConsensus

  /** Both ledgers hold the same vertices, and a block voids itself exactly when it is off the chain. */
  ghost predicate Agree(full: Dag, blocks: set<Id>, work: map<Id, nat>, vb: VoidedBy, tree: Tree, voided: set<Id>) {
    && SameVertices(full, blocks, work, tree)
    && blocks <= vb.Keys && forall b :: b in blocks ==> (b in vb[b] <==> b in voided)
  }

  ghost predicate SameVertices(full: Dag, blocks: set<Id>, work: map<Id, nat>, tree: Tree) {
    full == tree.full && blocks == tree.blocks && work == tree.work
  }

  lemma SameAfterTx(full: Dag, blocks: set<Id>, work: map<Id, nat>, tree: Tree, id: Id, deps: set<Id>, ts: nat, w: nat)
    requires SameVertices(full, blocks, work, tree) && tree.Valid() && Acceptable(full, id, deps, ts) && w > 0
    ensures BL.AcceptableTx(tree, id, deps, ts, w)
    ensures SameVertices(Extended(full, id, deps, ts), blocks, work[id := w], BL.WithTx(tree, id, deps, ts, w))
  {
  }

  /** Verification and consensus agree on what a block may point to. */
  lemma SameAfterBlock(full: Dag, blocks: set<Id>, work: map<Id, nat>, vb: VoidedBy, tree: Tree, id: Id, parent: Id, txs: set<Id>, ts: nat, w: nat)
    requires SameVertices(full, blocks, work, tree) && BL.AcceptableBlock(tree, id, parent, txs, ts, w) && TL.ExecutedAll(vb, txs)
    ensures SameVertices(Extended(full, id, txs + {parent}, ts), blocks + {id}, work[id := w], BL.WithBlock(tree, id, parent, txs, ts, w))
    ensures TL.AcceptableBlock(full, blocks, vb, id, txs + {parent}, ts, w) && id !in full.deps && id !in blocks
  {
    assert tree.full.Valid() && Acceptable(full, id, txs + {parent}, ts);
  }

  lemma SameAtGenesis(full: Dag, work: map<Id, nat>, vb: VoidedBy, id: Id, ts: nat, w: nat)
    requires full == Dag(map[], map[]) && work == map[] && w > 0
    ensures SameVertices(Extended(full, id, {}, ts), {id}, work[id := w], BL.OnlyGenesis(id, ts, w))
    ensures TL.AcceptableBlock(full, {}, vb, id, {}, ts, w)
  {
  }

  /** The blocks agree again once the transactions know who left and who joined the best chain. */
  lemma AgreeAgain(blocks: set<Id>, id: Id, vb: VoidedBy, vb1: VoidedBy, vb': VoidedBy, was: set<Id>, now: set<Id>)
    requires id !in blocks && id !in vb && blocks <= vb.Keys && forall b :: b in blocks ==> (b in vb[b] <==> b in was)
    requires vb1 == vb[id := if id in now then {id} else {}]
    requires blocks + {id} <= vb'.Keys
    requires forall b :: b in blocks + {id} ==> (b in vb'[b] <==> (b in vb1[b] || b in (now - was) * blocks) && b !in (was - now) * blocks)
    ensures forall b :: b in blocks + {id} ==> (b in vb'[b] <==> b in now)
  {
    forall b | b in blocks + {id} ensures b in vb'[b] <==> b in now {
      assert b in vb1[b] <==> if b == id then id in now else b in was;
    }
  }

  /** Which transactions carry their own hash after the blocks of `left` left the best chain: besides those
  that did, every one with conflicts that comes after such a block. */
  ghost predicate SelfVoidedAfter(dag: Dag, blocks: set<Id>, conf: TransactionConsensus.Conflicts, vb: VoidedBy, vb': VoidedBy, left: set<Id>) {
    && dag.Valid() && conf.Keys == vb.Keys == vb'.Keys == dag.deps.Keys
    && forall x :: x in vb && x !in blocks ==> (x in vb'[x] <==> x in vb[x] || (conf[x] != {} && exists b :: b in left && dag.Reaches(b, x)))
  }

  /** The blocks of `s` that are not voided. */
  ghost function ValidAmong(vb: VoidedBy, s: set<Id>): set<Id> {
    set b | b in s && b in vb && b !in vb[b]
  }

  lemma SelfVoidedNone(dag: Dag, blocks: set<Id>, conf: TransactionConsensus.Conflicts, vb: VoidedBy, list: seq<Id>)
    requires dag.Valid() && conf.Keys == vb.Keys == dag.deps.Keys
    ensures SelfVoidedAfter(dag, blocks, conf, vb, vb, ValidAmong(vb, Elements(list[..0])))
  {
  }

  lemma SelfVoidedStep(dag: Dag, blocks: set<Id>, conf: TransactionConsensus.Conflicts, vb: VoidedBy, vb1: VoidedBy, vb2: VoidedBy, left: set<Id>, b: Id)
    requires SelfVoidedAfter(dag, blocks, conf, vb, vb1, left) && Exact(dag, vb1) && b in vb1 && b in blocks
    requires Pushed(dag, vb1, vb2, dag.Desc(b), b, MustVoid(dag, conf, vb1, b, b))
    ensures SelfVoidedAfter(dag, blocks, conf, vb, vb2, left + {b})
  {
    ExactAfterPush(dag, vb1, vb2, b, MustVoid(dag, conf, vb1, b, b));
    hide Pushed, Exact;
    forall x | x in vb && x !in blocks
      ensures x in vb2[x] <==> x in vb[x] || (conf[x] != {} && exists c :: c in left + {b} && dag.Reaches(c, x))
    {
      assert x in dag.Desc(b) <==> dag.Reaches(b, x);
      if c :| c in left && dag.Reaches(c, x) {
        assert c in left + {b};
      }
      if dag.Reaches(b, x) {
        assert b in left + {b};
      }
    }
  }

  /** Transactions that are voided by themselves alone and were voided by more before. */
  ghost function NewlyAlone(blocks: set<Id>, vb: VoidedBy, vb': VoidedBy): set<Id> {
    set x | x in vb && x in vb' && x !in blocks && vb[x] != {x} && vb'[x] == {x}
  }

  /** Only hashes of blocks went, so every transaction keeps its own. */
  ghost predicate OnlyBlocksCleared(blocks: set<Id>, vb: VoidedBy, vb': VoidedBy) {
    && vb.Keys == vb'.Keys
    && forall x, g {:trigger g in vb'[x]} {:trigger g in vb[x]} :: x in vb && x !in blocks ==> (g in vb'[x] ==> g in vb[x]) && (g in vb[x] && g !in blocks ==> g in vb'[x])
  }

  lemma ClearedStep(dag: Dag, blocks: set<Id>, vb: VoidedBy, vb1: VoidedBy, vb2: VoidedBy, b: Id)
    requires OnlyBlocksCleared(blocks, vb, vb1) && Cleared(vb1, vb2, vb1.Keys, b) && b in blocks && dag.Valid() && Exact(dag, vb1)
    requires forall c :: c in blocks ==> c in dag.deps && dag.deps[c] == {}
    ensures OnlyBlocksCleared(blocks, vb, vb2)
    ensures NewlyAlone(blocks, vb, vb2) == NewlyAlone(blocks, vb, vb1) + LeftAlone(vb1, b, dag.Desc(b) - {b})
  {
    assert forall c :: c in blocks && dag.Reaches(b, c) ==> c == b;
    forall x | x in vb && x !in blocks ensures vb2[x] == vb1[x] - {b} {
      assert forall g :: g in vb2[x] <==> g in vb1[x] && g != b;
    }
    forall x | x in vb && x !in blocks
      ensures x in NewlyAlone(blocks, vb, vb2) <==> x in NewlyAlone(blocks, vb, vb1) || x in LeftAlone(vb1, b, dag.Desc(b) - {b})
    {
      assert b in vb1[x] ==> dag.Reaches(b, x) && b in vb[x];
      if vb[x] == {x} {
        assert vb1[x] == {x};
      }
    }
  }

  lemma AllValid(vb: VoidedBy, was: set<Id>, now: set<Id>, blocks: set<Id>, id: Id)
    requires blocks <= vb.Keys && forall b :: b in blocks ==> (b in vb[b] <==> b in was)
    ensures ValidAmong(vb, (now - was) * blocks) == (now - was) * blocks
  {
  }

  lemma OwnHashesStay(dag: Dag, blocks: set<Id>, conf: TransactionConsensus.Conflicts, vb: VoidedBy, vb1: VoidedBy, vb2: VoidedBy, left: set<Id>)
    requires SelfVoidedAfter(dag, blocks, conf, vb, vb1, left) && OnlyBlocksCleared(blocks, vb1, vb2)
    ensures SelfVoidedAfter(dag, blocks, conf, vb, vb2, left)
  {
    hide Dag.Reaches;
  }

  /** A transaction carries whatever voids something it verifies or spends. */
  lemma VoidanceInherited(dag: Dag, vb: VoidedBy, p: Id, t: Id)
    requires dag.Valid() && Exact(dag, vb) && t in dag.deps && p in dag.deps[t]
    ensures p in vb && vb[p] <= vb[t]
  {
    forall g | g in vb[p] ensures g in vb[t] {
      assert dag.Reaches(g, t);
    }
  }

  /** Hashes of blocks in the marks of a transaction: exactly the blocks off the best chain that it
  descends from through spending and confirming. */
  lemma BlockHashesExactly(dag: Dag, full: Dag, blocks: set<Id>, work: map<Id, nat>, vb: VoidedBy, tree: Tree, voided: set<Id>, b: Id, t: Id)
    requires Agree(full, blocks, work, vb, tree, voided) && dag.Valid() && Exact(dag, vb) && b in blocks && t in vb
    ensures b in vb[t] <==> b in voided && dag.Reaches(b, t)
  {
    hide Dag.Reaches, Dag.Valid;
    assert b in vb[b] <==> b in voided;
  }

  /** What is executed: a transaction with no self-voided transaction and no block off the best chain
  among itself and its ancestors. */
  lemma ExecutedExactly(dag: Dag, full: Dag, blocks: set<Id>, work: map<Id, nat>, vb: VoidedBy, tree: Tree, voided: set<Id>, t: Id)
    requires Agree(full, blocks, work, vb, tree, voided) && dag.Valid() && Exact(dag, vb) && t in vb
    ensures vb[t] == {} <==> forall g :: g in vb && dag.Reaches(g, t) ==> if g in blocks then g !in voided else g !in vb[g]
  {
    hide Dag.Reaches, Dag.Valid;
    if vb[t] == {} {
      forall g | g in vb && dag.Reaches(g, t) ensures if g in blocks then g !in voided else g !in vb[g] {
        assert g !in vb[t];
      }
    } else {
      var g :| g in vb[t];
      assert g in vb && g in vb[g] && dag.Reaches(g, t);
    }
  }

  /** The consensus of a node, over whole runs. */
  class Node {
    const txs: TL.TransactionLedger
    const chain: BL.BlockLedger

    ghost predicate Inv()
      reads this, txs, chain
    {
      txs.Inv() && chain.Inv() && Agree(txs.full, txs.blocks, txs.work, txs.voidedBy, chain.tree, chain.voided)
    }

    constructor (genesis: Id, ts: nat, w: nat, exec: (Root, Id) -> Root, emptyRoot: Root)
      requires w > 0
      ensures Inv() && fresh(txs) && fresh(chain) && chain.tree == BL.OnlyGenesis(genesis, ts, w) && chain.voided == {}
      ensures chain.exec == exec && chain.emptyRoot == emptyRoot
    {
      hide TL.Consistent, BL.Consistent, SameVertices, BL.OnlyGenesis, Extended;
      var t := new TL.TransactionLedger();
      TL.Basics(t.dag, t.full, t.blocks, t.work, t.inputs, t.spentBy, t.conflictWith, t.voidedBy, t.accWeight);
      SameAtGenesis(t.full, t.work, t.voidedBy, genesis, ts, w);
      t.NewBlock(genesis, {}, ts, w, false);
      assert t.blocks == {genesis};
      var c := new BL.BlockLedger(genesis, ts, w, exec, emptyRoot);
      txs, chain := t, c;
    }

    /** A transaction arrives.  Nothing changes, and `ok` is false, when settling it would void a
    confirmed transaction; then a confirmed transaction has a rival of at least its weight. */
    method NewTransaction(id: Id, parents: set<Id>, ins: seq<TxInput>, ts: nat, w: nat) returns (ok: bool)
      requires Inv() && TL.AcceptableTx(txs.full, txs.blocks, id, parents, ins, ts, w)
      modifies txs, chain
      ensures Inv() && chain.voided == old(chain.voided)
      ensures ok ==> txs.full == Extended(old(txs.full), id, parents + TL.SpentTxs(ins), ts)
      ensures ok ==> TransactionConsensus.ResolvedIn(txs.full, txs.work, txs.conflictWith, txs.voidedBy, id)
      ensures !ok ==> unchanged(txs) && unchanged(chain)
      ensures !ok ==> TL.ChallengedBy(Extended(txs.full, id, parents + TL.SpentTxs(ins), ts), txs.blocks, txs.work[id := w],
                                      txs.inputs[id := Arrival.InputSet(ins)])
      ensures TL.ExecutedAll(old(txs.voidedBy), parents + TL.SpentTxs(ins)) ==>
                (ok <==> !TL.OverturnsOnArrival(Extended(old(txs.full), id, parents + TL.SpentTxs(ins), ts), txs.blocks, old(txs.work)[id := w],
                                                old(txs.inputs)[id := Arrival.InputSet(ins)], old(txs.voidedBy)[id := {id}], id))
      ensures ok ==> TL.VoiderDecided(txs.full, txs.blocks, txs.work, txs.conflictWith, old(txs.voidedBy), txs.voidedBy, parents + TL.SpentTxs(ins), id)
      ensures TL.VoiderRefusesBy(Extended(old(txs.full), id, parents + TL.SpentTxs(ins), ts), txs.blocks, old(txs.work)[id := w],
                                 old(txs.inputs)[id := Arrival.InputSet(ins)], old(txs.voidedBy), parents + TL.SpentTxs(ins), id, ok)
      ensures ok ==> txs.work == old(txs.work)[id := w] && txs.inputs == old(txs.inputs)[id := Arrival.InputSet(ins)]
      ensures ok ==> chain.tree == BL.WithTx(old(chain.tree), id, parents + TL.SpentTxs(ins), ts, w) && chain.best == old(chain.best)
    {
      hide TL.Consistent, BL.Consistent, Extended, BL.WithTx, TL.SpentTxs, Arrival.InputSet, BL.AcceptableTx, SameVertices;
      hide TL.VoiderDecided, TL.VoiderRefusesBy, Settlement.Follows, Settlement.Asked, Arrival.Entered, Arrival.Carried, TransactionConsensus.ResolvedIn, TL.ChallengedBy, TL.ExecutedAll, TL.OverturnsOnArrival, BareOf, Anchored, TransactionConsensus.Ready, Exact, Dag.Valid, Tree.Valid;
      var deps := parents + TL.SpentTxs(ins);
      TL.Known(txs.dag, txs.full, txs.blocks, txs.work, txs.inputs, txs.spentBy, txs.conflictWith, txs.voidedBy, txs.accWeight);
      TreeValid(chain);
      SameAfterTx(txs.full, txs.blocks, txs.work, chain.tree, id, deps, ts, w);
      ok := txs.NewTransaction(id, parents, ins, ts, w);
      if ok {
        chain.NewTransaction(id, deps, ts, w);
        TL.Known(txs.dag, txs.full, txs.blocks, txs.work, txs.inputs, txs.spentBy, txs.conflictWith, txs.voidedBy, txs.accWeight);
      }
    }

    /** Whatever any block comes after is executed, whether that block is on the best chain or not. */
    lemma ConfirmedIsExecuted(t: Id, b: Id)
      requires Inv() && txs.full.Valid() && b in txs.full.deps
      requires t in txs.voidedBy && t !in txs.blocks && b in txs.blocks && txs.full.Reaches(t, b)
      ensures txs.voidedBy[t] == {}
    {
      TL.ConfirmedIsExecuted(txs.dag, txs.full, txs.blocks, txs.work, txs.inputs, txs.spentBy, txs.conflictWith, txs.voidedBy, txs.accWeight, t, b);
    }

    /** A voided transaction never has a first block. */
    lemma FirstBlockMeansExecuted(t: Id)
      requires Inv() && t in txs.voidedBy && t !in txs.blocks && t in chain.firstBlock
      ensures txs.voidedBy[t] == {}
    {
      hide TL.Consistent, BL.Consistent, Dag.Reaches, Dag.Valid, Tree.Valid, Exact, Tree.TxReaches, BareOf, Anchored, TransactionConsensus.Ready;
      TL.Basics(txs.dag, txs.full, txs.blocks, txs.work, txs.inputs, txs.spentBy, txs.conflictWith, txs.voidedBy, txs.accWeight);
      TreeValid(chain);
      BL.FirstBlockIsEarliest(chain.tree, chain.voided, chain.score, chain.firstBlock, chain.tips, chain.best, chain.tip,
                              chain.exec, chain.emptyRoot, chain.roots, t);
      TxReachesReaches(chain.tree, t, chain.firstBlock[t]);
      ConfirmedIsExecuted(t, chain.firstBlock[t]);
    }

    /** No output is ever spent by two executed transactions. */
    lemma NoDoubleSpend(v: Id, c: Id, i: TxInput)
      requires Inv() && v in txs.inputs && c in txs.inputs && v != c && i in txs.inputs[v] && i in txs.inputs[c]
      ensures v in txs.voidedBy && c in txs.voidedBy && !(txs.voidedBy[v] == {} && txs.voidedBy[c] == {})
    {
      SharedInput(txs, v, c, i);
    }

    /** Whatever an executed transaction descends from by spending rewards is on every best chain. */
    lemma ExecutedOnBestChain(t: Id, b: Id, head: Id)
      requires Inv() && txs.dag.Valid() && t in txs.voidedBy && txs.voidedBy[t] == {} && t in txs.dag.deps
      requires b in txs.blocks && txs.dag.Reaches(b, t) && head in chain.tips
      ensures chain.tree.Valid() && b in chain.tree.blocks && head in chain.tree.blocks && b in chain.tree.Chain(head)
    {
      hide TL.Consistent, BL.Consistent, Dag.Reaches, Dag.Valid, Tree.Valid;
      TL.Basics(txs.dag, txs.full, txs.blocks, txs.work, txs.inputs, txs.spentBy, txs.conflictWith, txs.voidedBy, txs.accWeight);
      TreeValid(chain);
      ExecutedExactly(txs.dag, txs.full, txs.blocks, txs.work, txs.voidedBy, chain.tree, chain.voided, t);
      BL.BestChain(chain.tree, chain.voided, chain.score, chain.firstBlock, chain.tips, chain.best, chain.tip,
                   chain.exec, chain.emptyRoot, chain.roots, b, head, head);
      BL.BestChain(chain.tree, chain.voided, chain.score, chain.firstBlock, chain.tips, chain.best, chain.tip,
                   chain.exec, chain.emptyRoot, chain.roots, head, head, head);
    }

    /** Only a conflict makes a transaction void itself. */
    lemma SelfVoidedHasConflict(t: Id)
      requires Inv() && t in txs.voidedBy && t in txs.voidedBy[t] && t !in txs.blocks
      ensures t in txs.conflictWith && txs.conflictWith[t] != {}
    {
    }

    /** A conflict that some push or removal asked about is checked.  Nothing changes, and `ok` is false,
    exactly when that would void a confirmed transaction. */
    method Recheck(t: Id) returns (ok: bool)
      requires Inv() && t in txs.voidedBy
      modifies txs
      ensures Inv() && TL.BlocksSame(txs.blocks, old(txs.voidedBy), txs.voidedBy)
      ensures if ok then exists asked :: TransactionConsensus.Checked(txs.dag, txs.full, txs.work, txs.conflictWith, old(txs.voidedBy), txs.voidedBy, t, asked) &&
                                         txs.pending == old(txs.pending) - {t} + asked
              else txs.voidedBy == old(txs.voidedBy) && txs.pending == old(txs.pending)
      ensures txs.dag == old(txs.dag) && txs.full == old(txs.full) && txs.work == old(txs.work) && txs.conflictWith == old(txs.conflictWith)
      ensures ok <==> !TransactionConsensus.OverturnsIn(txs.full, txs.blocks, txs.work, txs.conflictWith, old(txs.voidedBy), t)
    {
      hide TL.Consistent, BL.Consistent, SameVertices, TransactionConsensus.Resolved, TransactionConsensus.Loses, TransactionConsensus.Ties, Weights;
      hide TransactionConsensus.OverturnsIn, TransactionConsensus.ResolvedIn, TransactionConsensus.Checked, BareOf, Anchored, TransactionConsensus.Ready, Exact, Dag.Valid;
      ok := txs.Recheck(t);
      TL.Known(txs.dag, txs.full, txs.blocks, txs.work, txs.inputs, txs.spentBy, txs.conflictWith, txs.voidedBy, txs.accWeight);
    }

    /** The blocks of `list` leave the best chain.  Stops at a block that is stuck. */
    method VoidAll(list: seq<Id>) returns (ok: bool)
      requires txs.Inv() && Elements(list) <= txs.blocks
      modifies txs`voidedBy, txs`accWeight, txs`pending
      ensures txs.Inv() && txs.blocks <= txs.voidedBy.Keys && txs.blocks <= old(txs.voidedBy).Keys
      ensures ok ==> forall b :: b in txs.blocks ==> (b in txs.voidedBy[b] <==> b in old(txs.voidedBy)[b] || b in Elements(list))
      ensures ok || exists b, spenders: seq<Id> :: Stuck(txs.dag, txs.full, txs.blocks, b, spenders) && b in Elements(list)
      ensures ok ==> SelfVoidedAfter(txs.dag, txs.blocks, txs.conflictWith, old(txs.voidedBy), txs.voidedBy, ValidAmong(old(txs.voidedBy), Elements(list)))
      ensures old(txs.pending) <= txs.pending
    {
      hide TL.Consistent, Dag.Desc, Dag.Next, Dag.Valid, Separate, ConflictsOf, DemotedBy, Elements, Stuck, BareOf, Anchored, TransactionConsensus.Ready, Exact, TL.SpenderConfirmed;
      hide SelfVoidedAfter, ValidAmong, Pushed, MustVoid;
      TL.Known(txs.dag, txs.full, txs.blocks, txs.work, txs.inputs, txs.spentBy, txs.conflictWith, txs.voidedBy, txs.accWeight);
      ok := true;
      var i := 0;
      NoElements(list);
      SelfVoidedNone(txs.dag, txs.blocks, txs.conflictWith, txs.voidedBy, list);
      while i < |list|
        invariant 0 <= i <= |list| && txs.Inv() && txs.blocks <= txs.voidedBy.Keys && ok
        invariant forall b :: b in txs.blocks ==> (b in txs.voidedBy[b] <==> b in old(txs.voidedBy)[b] || b in Elements(list[..i]))
        invariant SelfVoidedAfter(txs.dag, txs.blocks, txs.conflictWith, old(txs.voidedBy), txs.voidedBy, ValidAmong(old(txs.voidedBy), Elements(list[..i])))
        invariant old(txs.pending) <= txs.pending
      {
        OneMore(list, i);
        var b := list[i];
        ValidOneMore(old(txs.voidedBy), Elements(list[..i]), b);
        ghost var vb1 := txs.voidedBy;
        if b !in txs.voidedBy[b] {
          var spenders := ListOf(txs.dag.Next(b));
          TL.Known(txs.dag, txs.full, txs.blocks, txs.work, txs.inputs, txs.spentBy, txs.conflictWith, txs.voidedBy, txs.accWeight);
          ok := txs.VoidBlock(b, spenders);
          TL.Known(txs.dag, txs.full, txs.blocks, txs.work, txs.inputs, txs.spentBy, txs.conflictWith, txs.voidedBy, txs.accWeight);
          if !ok {
            NowStuck(txs.dag, txs.full, txs.blocks, b, spenders);
            return;
          }
          SelfVoidedStep(txs.dag, txs.blocks, txs.conflictWith, old(txs.voidedBy), vb1, txs.voidedBy, ValidAmong(old(txs.voidedBy), Elements(list[..i])), b);
        }
        i := i + 1;
      }
      assert list[..i] == list;
    }

    /** The blocks of `list` join the best chain. */
    method UnvoidAll(list: seq<Id>)
      requires txs.Inv() && Elements(list) <= txs.blocks
      modifies txs`voidedBy, txs`pending
      ensures txs.Inv() && txs.blocks <= txs.voidedBy.Keys && txs.blocks <= old(txs.voidedBy).Keys
      ensures forall b :: b in txs.blocks ==> (b in txs.voidedBy[b] <==> b in old(txs.voidedBy)[b] && b !in Elements(list))
      ensures OnlyBlocksCleared(txs.blocks, old(txs.voidedBy), txs.voidedBy)
      ensures txs.pending == old(txs.pending) + NewlyAlone(txs.blocks, old(txs.voidedBy), txs.voidedBy)
    {
      hide OnlyBlocksCleared, NewlyAlone;
      hide TL.Consistent, Dag.Desc, Dag.Next, Dag.Valid, LeftAlone, Cleared, Elements, BareOf, Anchored, TransactionConsensus.Ready, Exact;
      TL.Known(txs.dag, txs.full, txs.blocks, txs.work, txs.inputs, txs.spentBy, txs.conflictWith, txs.voidedBy, txs.accWeight);
      var i := 0;
      NoElements(list);
      NothingCleared(txs.blocks, txs.voidedBy);
      while i < |list|
        invariant 0 <= i <= |list| && txs.Inv() && txs.blocks <= txs.voidedBy.Keys
        invariant forall b :: b in txs.blocks ==> (b in txs.voidedBy[b] <==> b in old(txs.voidedBy)[b] && b !in Elements(list[..i]))
        invariant OnlyBlocksCleared(txs.blocks, old(txs.voidedBy), txs.voidedBy)
        invariant txs.pending == old(txs.pending) + NewlyAlone(txs.blocks, old(txs.voidedBy), txs.voidedBy)
      {
        OneMore(list, i);
        var b := list[i];
        ghost var vb1 := txs.voidedBy;
        if b in txs.voidedBy[b] {
          var spenders := ListOf(txs.dag.Next(b));
          TL.Known(txs.dag, txs.full, txs.blocks, txs.work, txs.inputs, txs.spentBy, txs.conflictWith, txs.voidedBy, txs.accWeight);
          txs.UnvoidBlock(b, spenders);
          ClearedStep(txs.dag, txs.blocks, old(txs.voidedBy), vb1, txs.voidedBy, b);
          TL.Known(txs.dag, txs.full, txs.blocks, txs.work, txs.inputs, txs.spentBy, txs.conflictWith, txs.voidedBy, txs.accWeight);
        }
        i := i + 1;
      }
      assert list[..i] == list;
    }

    /** A block arrives, confirming executed transactions.  Blocks that left the best chain push their
    hash, then blocks that joined it take theirs back.  Fails only where a block that leaves is stuck. */
    method NewBlock(id: Id, parent: Id, confirmed: set<Id>, ts: nat, w: nat) returns (reorg: BlockConsensus.Reorg, ok: bool)
      requires Inv() && BL.AcceptableBlock(chain.tree, id, parent, confirmed, ts, w) && TL.ExecutedAll(txs.voidedBy, confirmed)
      modifies txs, chain
      ensures chain.Inv() && txs.Inv() && (ok ==> Inv())
      ensures chain.tree == BL.WithBlock(old(chain.tree), id, parent, confirmed, ts, w) && chain.tree.Valid()
      ensures txs.full == Extended(old(txs.full), id, confirmed + {parent}, ts) && txs.dag == Extended(old(txs.dag), id, {}, ts)
      ensures txs.work == old(txs.work)[id := w] && txs.blocks == old(txs.blocks) + {id}
      ensures BlockConsensus.ReorgSound(chain.tree, reorg) && (chain.best == id || chain.best == old(chain.best))
      ensures chain.best == id ==> chain.tips == [id]
      ensures reorg.Reorg? ==> reorg.oldBest == old(chain.best) && reorg.newBest == id == chain.best
      ensures chain.best == id && reorg.NoReorg? ==> parent == old(chain.best)
      ensures reorg.Reorg? ==> BL.ForkOfValid(old(chain.tree), old(chain.voided), chain.tree, id, reorg.common)
      ensures reorg.Reorg? && Elements(old(chain.tips)) == {old(chain.best)} ==> BlockConsensus.Fork(chain.tree, id, old(chain.best), reorg.common)
      ensures ok || exists b, spenders: seq<Id> :: Stuck(txs.dag, txs.full, txs.blocks, b, spenders) && b in chain.voided && b !in old(chain.voided)
      ensures txs.inputs == old(txs.inputs)[id := {}] && txs.conflictWith == old(txs.conflictWith)[id := {}] && old(txs.pending) <= txs.pending
      ensures ok ==> SelfVoidedAfter(txs.dag, txs.blocks, txs.conflictWith, old(txs.voidedBy)[id := if id in chain.voided then {id} else {}], txs.voidedBy,
                                     (chain.voided - old(chain.voided)) * old(txs.blocks))
    {
      hide TL.Consistent, BL.Consistent, Extended, BL.WithBlock, BL.AcceptableBlock, TL.AcceptableBlock, SameVertices, BlockConsensus.ReorgSound, Elements;
      hide BL.ForkOfValid, BlockConsensus.Fork, SelfVoidedAfter, ValidAmong, Stuck, Exact, Dag.Valid, Tree.Valid, TL.ExecutedAll, BareOf, Anchored, TransactionConsensus.Ready;
      ghost var blocks, vb := txs.blocks, txs.voidedBy;
      TL.Known(txs.dag, txs.full, txs.blocks, txs.work, txs.inputs, txs.spentBy, txs.conflictWith, txs.voidedBy, txs.accWeight);
      TreeValid(chain);
      SameAfterBlock(txs.full, txs.blocks, txs.work, txs.voidedBy, chain.tree, id, parent, confirmed, ts, w);
      var was := chain.voided;
      reorg := chain.NewBlock(id, parent, confirmed, ts, w);
      TreeValid(chain);
      var now := chain.voided;
      var before := txs.blocks;
      txs.NewBlock(id, confirmed + {parent}, ts, w, id in now);
      ghost var vb1 := txs.voidedBy;
      ok := FollowChain(was, now, before);
      if ok {
        AllValid(vb1, was, now, blocks, id);
        AgreeAgain(blocks, id, vb, vb1, txs.voidedBy, was, now);
      }
    }

    /** Blocks of `before` that left the best chain push their hash, then those that joined it take
    theirs back. */
    method FollowChain(was: set<Id>, now: set<Id>, before: set<Id>) returns (ok: bool)
      requires txs.Inv() && before <= txs.blocks
      modifies txs`voidedBy, txs`accWeight, txs`pending
      ensures txs.Inv() && txs.blocks <= txs.voidedBy.Keys && txs.blocks <= old(txs.voidedBy).Keys
      ensures ok ==> forall b :: b in txs.blocks ==>
                (b in txs.voidedBy[b] <==> (b in old(txs.voidedBy)[b] || b in (now - was) * before) && b !in (was - now) * before)
      ensures ok || exists b, spenders: seq<Id> :: Stuck(txs.dag, txs.full, txs.blocks, b, spenders) && b in (now - was) * before
      ensures old(txs.pending) <= txs.pending
      ensures ok ==> SelfVoidedAfter(txs.dag, txs.blocks, txs.conflictWith, old(txs.voidedBy), txs.voidedBy,
                                     ValidAmong(old(txs.voidedBy), (now - was) * before))
    {
      hide TL.Consistent, Elements, Stuck, Dag.Valid, SelfVoidedAfter, OnlyBlocksCleared, NewlyAlone, ValidAmong;
      var left := ListOf((now - was) * before);
      var joined := ListOf((was - now) * before);
      ok := VoidAll(left);
      if ok {
        ghost var vb1 := txs.voidedBy;
        UnvoidAll(joined);
        OwnHashesStay(txs.dag, txs.blocks, txs.conflictWith, old(txs.voidedBy), vb1, txs.voidedBy, ValidAmong(old(txs.voidedBy), (now - was) * before));
      }
    }
  }

  lemma {:induction false} TxReachesReaches(tree: Tree, t: Id, v: Id)
    requires tree.Valid() && v in tree.full.deps && tree.TxReaches(t, v)
    ensures tree.full.Reaches(t, v)
    decreases tree.full.ts[v]
  {
    if t != v {
      var p :| p in tree.full.deps[v] && p !in tree.blocks && tree.TxReaches(t, p);
      TxReachesReaches(tree, t, p);
    }
  }

  /** The block cannot leave the best chain: its hash, pushed through its spenders in some order, meets
  a vertex twice, or a spender is confirmed. */
  ghost predicate Stuck(dag: Dag, full: Dag, blocks: set<Id>, b: Id, spenders: seq<Id>) {
    && dag.Valid() && full.Valid() && blocks <= full.deps.Keys && Elements(spenders) == dag.Next(b)
    && (!Separate(dag, b, spenders, |spenders|) || TL.SpenderConfirmed(dag, full, blocks, b))
  }

  lemma NowStuck(dag: Dag, full: Dag, blocks: set<Id>, b: Id, spenders: seq<Id>)
    requires dag.Valid() && full.Valid() && blocks <= full.deps.Keys && Elements(spenders) == dag.Next(b)
    requires !Separate(dag, b, spenders, |spenders|) || TL.SpenderConfirmed(dag, full, blocks, b)
    ensures Stuck(dag, full, blocks, b, spenders)
  {
  }

  lemma NothingCleared(blocks: set<Id>, vb: VoidedBy)
    ensures OnlyBlocksCleared(blocks, vb, vb) && NewlyAlone(blocks, vb, vb) == {}
  {
  }

  lemma ValidOneMore(vb: VoidedBy, s: set<Id>, b: Id)
    requires b in vb
    ensures b !in vb[b] ==> ValidAmong(vb, s + {b}) == ValidAmong(vb, s) + {b}
    ensures b in s || b in vb[b] ==> ValidAmong(vb, s + {b}) == ValidAmong(vb, s)
  {
    if b in s {
      assert s + {b} == s;
    }
  }

  lemma NoElements(list: seq<Id>)
    ensures Elements(list[..0]) == {}
  {
  }

  lemma OneMore(list: seq<Id>, i: nat)
    requires i < |list|
    ensures list[i] in Elements(list) && Elements(list[..i + 1]) == Elements(list[..i]) + {list[i]}
  {
    assert list[..i + 1] == list[..i] + [list[i]];
  }

  lemma SharedInput(txs: TL.TransactionLedger, v: Id, c: Id, i: TxInput)
    requires txs.Inv() && v in txs.inputs && c in txs.inputs && v != c && i in txs.inputs[v] && i in txs.inputs[c]
    ensures v in txs.voidedBy && c in txs.voidedBy && !(txs.voidedBy[v] == {} && txs.voidedBy[c] == {})
  {
    hide Weights, TransactionConsensus.WeightsKept, Dag.Reaches, Exact, Arrival.SpentExact;
    assert Arrival.ShareInput(txs.inputs, v, c);
    assert c in txs.conflictWith[v];
    TransactionConsensus.NeverBothExecuted(txs.dag, txs.blocks, txs.conflictWith, txs.voidedBy, {}, v, c);
  }

  lemma TreeValid(chain: BL.BlockLedger)
    requires chain.Inv()
    ensures chain.tree.Valid() && chain.voided <= chain.tree.blocks
  {
  }
}
