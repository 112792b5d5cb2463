/** What blocks confirm.  Voidance spreads along the bare DAG, where blocks point nowhere; weights
and confirmations follow the full one, where a block points to its parent and to the transactions
it confirms. */
module Confirmation {
  import opened Graph
  import opened Traversal
  import opened Ledger
  import opened Voidance

  /** `bare` is `full` without the edges that leave blocks. */
  ghost predicate BareOf(bare: Dag, full: Dag, blocks: set<Id>) {
    && bare.Valid() && full.Valid() && bare.ts == full.ts && blocks <= full.deps.Keys
    && (forall v :: v in full.deps ==> v in bare.deps && bare.deps[v] == if v in blocks then {} else full.deps[v])
  }

  /** A block comes after `v`. */
  ghost predicate Confirmed(full: Dag, blocks: set<Id>, v: Id)
    requires full.Valid() && blocks <= full.deps.Keys
  {
    exists b :: b in blocks && full.Reaches(v, b)
  }

  /** No block, voided or not, comes after a voided transaction. */
  ghost predicate Anchored(bare: Dag, full: Dag, blocks: set<Id>, vb: VoidedBy) {
    && BareOf(bare, full, blocks) && vb.Keys == full.deps.Keys
    && forall v :: v in vb && v !in blocks && Confirmed(full, blocks, v) ==> vb[v] == {}
  }

  lemma {:induction false} BareReaches(bare: Dag, full: Dag, blocks: set<Id>, u: Id, v: Id)
    requires BareOf(bare, full, blocks) && v in bare.deps && bare.Reaches(u, v)
    ensures full.Reaches(u, v)
    decreases bare.ts[v]
  {
    if u != v {
      var p :| p in bare.deps[v] && bare.Reaches(u, p);
      BareReaches(bare, full, blocks, u, p);
    }
  }

  /** From what no block confirms, every path runs through transactions only. */
  lemma {:induction false} UnconfirmedReaches(bare: Dag, full: Dag, blocks: set<Id>, u: Id, v: Id)
    requires BareOf(bare, full, blocks) && v in full.deps && full.Reaches(u, v) && !Confirmed(full, blocks, u)
    ensures bare.Reaches(u, v)
    decreases full.ts[v]
  {
    if u != v {
      var p :| p in full.deps[v] && full.Reaches(u, p);
      assert v !in blocks;
      UnconfirmedReaches(bare, full, blocks, u, p);
    }
  }

  /** What comes before something confirmed is confirmed. */
  lemma ConfirmedBefore(bare: Dag, full: Dag, blocks: set<Id>, u: Id, v: Id)
    requires BareOf(bare, full, blocks) && v in bare.deps && bare.Reaches(u, v) && Confirmed(full, blocks, v)
    ensures Confirmed(full, blocks, u)
  {
    BareReaches(bare, full, blocks, u, v);
    var b :| b in blocks && full.Reaches(v, b);
    ReachesTransitive(full, u, v, b);
  }

  /** Voidance may grow wherever nothing confirmed comes after the newly self-voided. */
  lemma AnchoredGrown(bare: Dag, full: Dag, blocks: set<Id>, vb: VoidedBy, vb': VoidedBy)
    requires Anchored(bare, full, blocks, vb) && Exact(bare, vb) && Exact(bare, vb')
    requires forall h, v {:trigger bare.Reaches(h, v)} :: h in vb' && h in vb'[h] && h !in vb[h] && v in vb && v !in blocks && bare.Reaches(h, v) ==>
               !Confirmed(full, blocks, v)
    ensures Anchored(bare, full, blocks, vb')
  {
    forall v | v in vb' && v !in blocks && Confirmed(full, blocks, v) ensures vb'[v] == {} {
      if h :| h in vb'[v] {
        assert h in vb' && h in vb'[h] && bare.Reaches(h, v);
        assert h in vb[h];
        assert h in vb[v];
      }
    }
  }

  lemma AnchoredShrunk(bare: Dag, full: Dag, blocks: set<Id>, vb: VoidedBy, vb': VoidedBy, cleared: set<Id>, h: Id)
    requires Anchored(bare, full, blocks, vb) && Cleared(vb, vb', cleared, h)
    ensures Anchored(bare, full, blocks, vb')
  {
    forall v | v in vb' && v !in blocks && Confirmed(full, blocks, v) ensures vb'[v] == {} {
      assert forall g :: g in vb'[v] ==> g in vb[v];
    }
  }

  /** Whether a walk to the right from `v` meets a block. */
  method MeetsBlock(full: Dag, blocks: set<Id>, v: Id) returns (met: bool)
    requires full.Valid() && blocks <= full.deps.Keys && v in full.deps
    ensures met <==> Confirmed(full, blocks, v)
  {
    var order := WalkRight(full, v);
    met := false;
    for i := 0 to |order|
      invariant met <==> exists k :: 0 <= k < i && order[k] in blocks
    {
      met := met || order[i] in blocks;
    }
    if met {
      var k :| 0 <= k < |order| && order[k] in blocks;
      assert order[k] in Elements(order);
    }
    if Confirmed(full, blocks, v) {
      var b :| b in blocks && full.Reaches(v, b);
      assert b in Elements(order);
      var k :| 0 <= k < |order| && order[k] == b;
    }
  }

  /** Whether a walk to the right from one of `list` meets a block. */
  method AnyMeetsBlock(full: Dag, blocks: set<Id>, list: seq<Id>) returns (met: bool)
    requires full.Valid() && blocks <= full.deps.Keys && Elements(list) <= full.deps.Keys
    ensures met <==> exists c :: c in Elements(list) && Confirmed(full, blocks, c)
  {
    hide Confirmed, Dag.Valid;
    met := false;
    for i := 0 to |list|
      invariant !met ==> forall k :: 0 <= k < i ==> !Confirmed(full, blocks, list[k])
      invariant met ==> exists c :: c in Elements(list) && Confirmed(full, blocks, c)
    {
      assert list[i] in Elements(list);
      var one := MeetsBlock(full, blocks, list[i]);
      met := met || one;
    }
  }
}
