/** The ledger of transactions over whole runs: transactions and blocks arrive, blocks leave and
rejoin the best chain, conflicts are checked again, in any order. */
module TransactionLedger {
  import opened Graph
  import opened Traversal
  import opened Ledger
  import opened Voidance
  import opened Confirmation
  import opened TransactionConsensus
  import opened Arrival
  import opened Settlement

  // ----- blocks -----

  lemma KeptAfterBlockPush(d: Dag, blocks: set<Id>, conf: Conflicts, vb: VoidedBy, vb': VoidedBy, b: Id)
    requires VoidanceKept(d, blocks, conf, vb, {}) && b in vb && b in blocks
    requires Pushed(d, vb, vb', d.Desc(b), b, MustVoid(d, conf, vb, b, b))
    ensures VoidanceKept(d, blocks, conf, vb', {})
  {
    var more := MustVoid(d, conf, vb, b, b);
    ExactAfterPush(d, vb, vb', b, more);
    forall v | v in vb' && vb'[v] != {} && conf[v] != {} ensures v in vb'[v] {
      var h :| h in vb'[v];
      if h in vb[v] {
        assert v in vb[v];
      } else {
        if h in more {
          ReachesTransitive(d, b, h, v);
        }
        assert v in d.Desc(b);
      }
    }
  }

  lemma KeptAfterBlockClear(d: Dag, blocks: set<Id>, conf: Conflicts, vb: VoidedBy, vb': VoidedBy, b: Id)
    requires VoidanceKept(d, blocks, conf, vb, {}) && b in vb && conf[b] == {}
    requires Cleared(vb, vb', d.Desc(b), b)
    ensures VoidanceKept(d, blocks, conf, vb', {})
  {
    ExactAfterClear(d, vb, vb', b);
    forall v | v in vb' && vb'[v] != {} && conf[v] != {} ensures v in vb'[v] {
      var h :| h in vb'[v];
      assert h in vb[v] && v != b;
    }
    forall v, c | v in conf && c in conf[v] ensures c in vb' && (v in vb'[v] || c in vb'[c]) {
      assert v in conf[c] && v != b && c != b;
    }
  }

  lemma BlockHasNoConflicts(inputs: Inputs, conf: Conflicts, b: Id)
    requires ConflictsExact(inputs, conf) && b in inputs && inputs[b] == {}
    ensures conf[b] == {}
  {
  }

  lemma PushedCarries(d: Dag, vb: VoidedBy, vb': VoidedBy, marked: set<Id>, h: Id, more: set<Id>)
    requires d.Valid() && Pushed(d, vb, vb', marked, h, more)
    ensures vb'.Keys == vb.Keys && forall x :: x in vb' && x in marked ==> h in vb'[x]
  {
  }

  lemma ClearedEverywhere(vb: VoidedBy, vb': VoidedBy, cleared: set<Id>, h: Id)
    requires Cleared(vb, vb', cleared, h) && forall x :: x in vb' ==> h !in vb'[x]
    ensures Cleared(vb, vb', vb.Keys, h) && vb'.Keys == vb.Keys
    ensures forall x :: x in vb && x in vb'[x] ==> x in vb[x]
  {
  }

  /** A transaction that spends the block is confirmed. */
  ghost predicate SpenderConfirmed(dag: Dag, full: Dag, blocks: set<Id>, b: Id)
    requires full.Valid() && blocks <= full.deps.Keys
  {
    exists s :: s in dag.Next(b) && Confirmed(full, blocks, s)
  }

  /** As long as no spender of the block is confirmed, its hash reaches nothing confirmed. */
  lemma AnchoredAfterBlockPush(d: Dag, f: Dag, blocks: set<Id>, conf: Conflicts, vb: VoidedBy, vb': VoidedBy, b: Id)
    requires Anchored(d, f, blocks, vb) && conf.Keys == vb.Keys == d.deps.Keys && Exact(d, vb) && b in vb && b in blocks
    requires Pushed(d, vb, vb', d.Desc(b), b, MustVoid(d, conf, vb, b, b)) && !SpenderConfirmed(d, f, blocks, b)
    ensures Anchored(d, f, blocks, vb')
  {
    ExactAfterPush(d, vb, vb', b, MustVoid(d, conf, vb, b, b));
    forall h, v | h in vb' && h in vb'[h] && h !in vb[h] && v in vb && v !in blocks && d.Reaches(h, v) ensures !Confirmed(f, blocks, v) {
      assert d.Reaches(b, h);
      BlockConfirms(d, f, blocks, b, h, v);
    }
    hide Exact, Pushed, MustVoid, SpenderConfirmed, Confirmed, Anchored;
    AnchoredGrown(d, f, blocks, vb, vb');
  }

  lemma BlockConfirms(d: Dag, f: Dag, blocks: set<Id>, b: Id, h: Id, v: Id)
    requires BareOf(d, f, blocks) && h in d.deps && v in d.deps && d.Reaches(b, h) && d.Reaches(h, v) && v != b
    requires !SpenderConfirmed(d, f, blocks, b)
    ensures !Confirmed(f, blocks, v)
  {
    hide Confirmed;
    ReachesTransitive(d, b, h, v);
    var s := ReachesFirstStep(d, b, v);
    if Confirmed(f, blocks, v) {
      ConfirmedBefore(d, f, blocks, s, v);
    }
  }

  /** What every operation keeps. */
  ghost predicate Consistent(dag: Dag, full: Dag, blocks: set<Id>, work: map<Id, nat>, inputs: Inputs, spentBy: SpentBy,
                             conf: Conflicts, vb: VoidedBy, acc: map<Id, nat>)
  {
    && Ready(dag, full, blocks, work, conf, vb, acc, {})
    && inputs.Keys == work.Keys && (forall b :: b in blocks ==> inputs[b] == {})
    && SpentExact(inputs, spentBy) && ConflictsExact(inputs, conf)
  }

  lemma Basics(dag: Dag, full: Dag, blocks: set<Id>, work: map<Id, nat>, inputs: Inputs, spentBy: SpentBy,
               conf: Conflicts, vb: VoidedBy, acc: map<Id, nat>)
    requires Consistent(dag, full, blocks, work, inputs, spentBy, conf, vb, acc)
    ensures Ready(dag, full, blocks, work, conf, vb, acc, {})
    ensures dag.Valid() && full.Valid() && Exact(dag, vb) && BareOf(dag, full, blocks) && Anchored(dag, full, blocks, vb)
    ensures vb.Keys == work.Keys == acc.Keys == inputs.Keys == conf.Keys == dag.deps.Keys == full.deps.Keys && blocks <= dag.deps.Keys
    ensures Weights(full, work).Keys == vb.Keys
    ensures SpentExact(inputs, spentBy) && ConflictsExact(inputs, conf) && forall b :: b in blocks ==> inputs[b] == {}
    ensures forall b :: b in blocks ==> dag.deps[b] == {} && conf[b] == {}
  {
    hide Ready, Confirmed, Exact, SpentExact, ConflictsExact, Weights;
    ReadyParts(dag, full, blocks, work, conf, vb, acc, {});
  }

  lemma Known(dag: Dag, full: Dag, blocks: set<Id>, work: map<Id, nat>, inputs: Inputs, spentBy: SpentBy,
              conf: Conflicts, vb: VoidedBy, acc: map<Id, nat>)
    requires Consistent(dag, full, blocks, work, inputs, spentBy, conf, vb, acc)
    ensures dag.Valid() && full.Valid() && vb.Keys == full.deps.Keys && blocks <= vb.Keys && blocks <= full.deps.Keys
    ensures conf.Keys == vb.Keys == dag.deps.Keys && Exact(dag, vb) && forall b :: b in blocks ==> b in dag.deps && dag.deps[b] == {}
  {
    hide Ready, Consistent;
    Basics(dag, full, blocks, work, inputs, spentBy, conf, vb, acc);
  }

  /** A block leaves the best chain; `ok` is false when the pushes from its spenders collide or would
  void a confirmed transaction. */
  method BlockVoided(dag: Dag, full: Dag, blocks: set<Id>, work: map<Id, nat>, inputs: Inputs, ghost spentBy: SpentBy,
                     conf: Conflicts, vb: VoidedBy, acc: map<Id, nat>, b: Id, spenders: seq<Id>)
    returns (vb': VoidedBy, acc': map<Id, nat>, checks: set<Id>, ok: bool)
    requires Consistent(dag, full, blocks, work, inputs, spentBy, conf, vb, acc)
    requires b in blocks && b in vb && b !in vb[b] && Elements(spenders) == dag.Next(b)
    ensures ok ==> Consistent(dag, full, blocks, work, inputs, spentBy, conf, vb', acc')
    ensures ok <==> Separate(dag, b, spenders, |spenders|) && !SpenderConfirmed(dag, full, blocks, b)
    ensures ok ==> forall x :: x in vb' && x in dag.Desc(b) ==> b in vb'[x]
    ensures ok ==> Pushed(dag, vb, vb', dag.Desc(b), b, MustVoid(dag, conf, vb, b, b))
    ensures ok ==> checks == ConflictsOf(conf, DemotedBy(dag, conf, vb, b, spenders, |spenders|))
    ensures ok ==> BlocksSame(blocks - {b}, vb, vb') && b in vb' && b in vb'[b]
  {
    hide Consistent, Ready, ConflictsOf, DemotedBy, BlocksSame, SpenderConfirmed;
    hide Separate, SpentExact, ConflictsExact, Weights, WeightsKept, Exact, Pushed, MustVoid, Dag.Reaches, Dag.Desc;
    hide Symmetric, PairVoided, VoidedCarryOwn, SelfVoidedHaveCause, Reweighed, Elements, Dag.Next, VoidanceKept, Anchored, BareOf, Dag.Valid, Confirmed;
    vb', acc', checks := vb, acc, {};
    Basics(dag, full, blocks, work, inputs, spentBy, conf, vb, acc);
    ReadyParts(dag, full, blocks, work, conf, vb, acc, {});
    SpendersMeet(dag, full, blocks, b);
    var met := AnyMeetsBlock(full, blocks, spenders);
    if met {
      ok := false;
      return;
    }
    vb', checks, ok := AddBlockVoidedBy(dag, conf, vb, b, spenders);
    if ok {
      PushedCarries(dag, vb, vb', dag.Desc(b), b, MustVoid(dag, conf, vb, b, b));
      OtherBlocksStay(dag, blocks, conf, vb, vb', b);
      acc' := Reweigh(dag, full, work, conf, acc, b);
      KeptAfterBlockPush(dag, blocks, conf, vb, vb', b);
      AnchoredAfterBlockPush(dag, full, blocks, conf, vb, vb', b);
      WeightsAfterMark(dag, Weights(full, work), conf, vb, vb', acc, acc', b);
      ReadyAgain(dag, full, blocks, work, conf, vb', acc', {});
      ConsistentStill(dag, full, blocks, work, inputs, spentBy, conf, vb, vb', acc, acc');
    }
  }

  lemma SpendersMeet(dag: Dag, full: Dag, blocks: set<Id>, b: Id)
    requires full.Valid() && blocks <= full.deps.Keys && dag.deps.Keys == full.deps.Keys
    ensures SpenderConfirmed(dag, full, blocks, b) <==> exists s :: s in dag.Next(b) && Confirmed(full, blocks, s)
    ensures dag.Next(b) <= full.deps.Keys
  {
  }

  lemma ConsistentStill(dag: Dag, full: Dag, blocks: set<Id>, work: map<Id, nat>, inputs: Inputs, spentBy: SpentBy, conf: Conflicts,
                        vb: VoidedBy, vb': VoidedBy, acc: map<Id, nat>, acc': map<Id, nat>)
    requires Consistent(dag, full, blocks, work, inputs, spentBy, conf, vb, acc) && Ready(dag, full, blocks, work, conf, vb', acc', {})
    ensures Consistent(dag, full, blocks, work, inputs, spentBy, conf, vb', acc')
  {
    hide SpentExact, ConflictsExact, WeightsKept, Weights, VoidanceKept, Anchored;
  }

  lemma ClearedBlocksStay(blocks: set<Id>, vb: VoidedBy, vb': VoidedBy, b: Id)
    requires Cleared(vb, vb', vb.Keys, b) && blocks <= vb.Keys && b in vb
    ensures BlocksSame(blocks - {b}, vb, vb') && b in vb' && b !in vb'[b]
  {
  }

  lemma OtherBlocksStay(dag: Dag, blocks: set<Id>, conf: Conflicts, vb: VoidedBy, vb': VoidedBy, b: Id)
    requires dag.Valid() && conf.Keys == vb.Keys == dag.deps.Keys && b in blocks && blocks <= vb.Keys
    requires forall c :: c in blocks ==> dag.deps[c] == {} && conf[c] == {}
    requires Pushed(dag, vb, vb', dag.Desc(b), b, MustVoid(dag, conf, vb, b, b))
    ensures BlocksSame(blocks - {b}, vb, vb') && b in vb' && b in vb'[b]
  {
    assert dag.Reaches(b, b);
  }

  /** A block joins the best chain: its hash is gone from every transaction, all others stay. */
  method BlockUnvoided(dag: Dag, ghost full: Dag, ghost blocks: set<Id>, ghost work: map<Id, nat>, ghost inputs: Inputs, ghost spentBy: SpentBy,
                       ghost conf: Conflicts, vb: VoidedBy, ghost acc: map<Id, nat>, b: Id, spenders: seq<Id>)
    returns (vb': VoidedBy, checks: set<Id>)
    requires Consistent(dag, full, blocks, work, inputs, spentBy, conf, vb, acc)
    requires b in blocks && b in vb && b in vb[b] && Elements(spenders) == dag.Next(b)
    ensures Consistent(dag, full, blocks, work, inputs, spentBy, conf, vb', acc)
    ensures Cleared(vb, vb', vb.Keys, b) && checks == LeftAlone(vb, b, dag.Desc(b) - {b})
    ensures BlocksSame(blocks - {b}, vb, vb') && b in vb' && b !in vb'[b]
  {
    hide Consistent, Ready, LeftAlone, BlocksSame;
    hide SpentExact, ConflictsExact, Weights, WeightsKept, Exact, Cleared, Dag.Reaches, Dag.Desc;
    hide Symmetric, PairVoided, VoidedCarryOwn, SelfVoidedHaveCause, Elements, Dag.Next, VoidanceKept, Anchored, BareOf, Dag.Valid;
    Basics(dag, full, blocks, work, inputs, spentBy, conf, vb, acc);
    ReadyParts(dag, full, blocks, work, conf, vb, acc, {});
    vb', checks := RemoveBlockVoidedBy(dag, vb, b, spenders);
    AnchoredShrunk(dag, full, blocks, vb, vb', dag.Desc(b), b);
    KeptAfterBlockClear(dag, blocks, conf, vb, vb', b);
    ClearedEverywhere(vb, vb', dag.Desc(b), b);
    ClearedBlocksStay(blocks, vb, vb', b);
    WeightsAfterWinning(Weights(full, work), conf, vb, vb', acc, b);
    ReadyAgain(dag, full, blocks, work, conf, vb', acc, {});
    ConsistentStill(dag, full, blocks, work, inputs, spentBy, conf, vb, vb', acc, acc);
  }

  method TransactionRechecked(dag: Dag, full: Dag, blocks: set<Id>, work: map<Id, nat>, ghost inputs: Inputs, ghost spentBy: SpentBy,
                              conf: Conflicts, vb: VoidedBy, acc: map<Id, nat>, t: Id)
    returns (vb': VoidedBy, acc': map<Id, nat>, checks: set<Id>, ok: bool)
    requires Consistent(dag, full, blocks, work, inputs, spentBy, conf, vb, acc) && t in vb
    ensures Consistent(dag, full, blocks, work, inputs, spentBy, conf, vb', acc')
    ensures ok <==> !OverturnsIn(full, blocks, work, conf, vb, t)
    ensures if ok then Checked(dag, full, work, conf, vb, vb', t, checks) else vb' == vb && checks == {}
    ensures ok ==> ResolvedIn(full, work, conf, vb', t)
    ensures BlocksSame(blocks, vb, vb')
  {
    hide Consistent, Ready, SpentExact, ConflictsExact, Weights, WeightsKept, Exact, Dag.Reaches, ResolvedIn, LonersKept, BlocksSame;
    hide OverturnsIn, Checked, VoidanceKept, Anchored, BareOf, Dag.Valid;
    Basics(dag, full, blocks, work, inputs, spentBy, conf, vb, acc);
    vb', acc', checks, ok := CheckConflicts(dag, full, blocks, work, conf, vb, acc, {}, t);
    ConsistentStill(dag, full, blocks, work, inputs, spentBy, conf, vb, vb', acc, acc');
    BlocksAreLoners(blocks, conf, vb, vb');
  }

  lemma BlocksAreLoners(blocks: set<Id>, conf: Conflicts, vb: VoidedBy, vb': VoidedBy)
    requires LonersKept(conf, vb, vb') && blocks <= vb.Keys && forall b :: b in blocks ==> conf[b] == {}
    ensures BlocksSame(blocks, vb, vb')
  {
  }

  // ----- arrivals -----

  /** What verification demands of a new transaction: it points only to known, strictly older
  vertices, verifies transactions, repeats no input and carries some work. */
  ghost predicate AcceptableTx(full: Dag, blocks: set<Id>, id: Id, parents: set<Id>, ins: seq<TxInput>, ts: nat, w: nat) {
    && Acceptable(full, id, parents + SpentTxs(ins), ts) && parents !! blocks && w > 0
    && forall k, l :: 0 <= k < l < |ins| ==> ins[k] != ins[l]
  }

  function SpentTxs(ins: seq<TxInput>): set<Id> {
    set i | i in ins :: i.tx
  }

  lemma ArrivalCauses(blocks: set<Id>, conf: Conflicts, conf': Conflicts, vb: VoidedBy, inputs: Inputs, id: Id, ins: set<TxInput>)
    requires SelfVoidedHaveCause(blocks, conf, vb) && Joined(conf, conf', id)
    requires ConflictsExact(inputs[id := ins], conf') && (forall b :: b in blocks ==> b in inputs && inputs[b] == {}) && id !in inputs
    ensures forall v :: v in vb && v in vb[v] && conf'[v] != {} ==> conf[v] != {} && v !in blocks
  {
    forall v | v in vb && v in blocks ensures conf'[v] == {} {
      BlockHasNoConflicts(inputs[id := ins], conf', v);
    }
  }

  /** What a newcomer finds: the records before it, and itself in both DAGs and among the conflicts. */
  ghost predicate Entering(dag: Dag, full: Dag, e: Dag, g: Dag, blocks: set<Id>, work: map<Id, nat>, work': map<Id, nat>, inputs: Inputs,
                           conf: Conflicts, conf': Conflicts, vb: VoidedBy, acc: map<Id, nat>,
                           id: Id, deps: set<Id>, ins: set<TxInput>, ts: nat, w: nat)
  {
    && VoidanceKept(dag, blocks, conf, vb, {}) && Anchored(dag, full, blocks, vb)
    && work.Keys == inputs.Keys == acc.Keys == vb.Keys && (forall b :: b in blocks ==> b in inputs && inputs[b] == {})
    && full.Valid() && work.Keys == full.deps.Keys && WeightsKept(Weights(full, work), conf, vb, acc)
    && Acceptable(dag, id, deps, ts) && e == Extended(dag, id, deps, ts) && e.Valid() && deps <= vb.Keys
    && Acceptable(full, id, deps, ts) && g == Extended(full, id, deps, ts) && g.Valid()
    && work' == work[id := w] && work'.Keys == e.deps.Keys == g.deps.Keys == conf'.Keys == vb.Keys + {id}
    && ConflictsExact(inputs, conf) && ConflictsExact(inputs[id := ins], conf')
  }

  lemma InheritKept(dag: Dag, full: Dag, e: Dag, g: Dag, blocks: set<Id>, work: map<Id, nat>, work': map<Id, nat>, inputs: Inputs,
                    conf: Conflicts, conf': Conflicts, vb: VoidedBy, vb': VoidedBy, acc: map<Id, nat>, acc1: map<Id, nat>,
                    id: Id, deps: set<Id>, ins: set<TxInput>, ts: nat, w: nat, inherited: set<Id>)
    requires Entering(dag, full, e, g, blocks, work, work', inputs, conf, conf', vb, acc, id, deps, ins, ts, w)
    requires Exact(e, vb') && id !in inherited && vb' == vb[id := inherited + (if conf'[id] != {} then {id} else {})]
    requires acc1.Keys == acc.Keys && forall x :: x in acc ==> acc1[x] == acc[x] + if x in inherited then w else 0
    ensures VoidanceKept(e, blocks, conf', vb', conf'[id]) && Anchored(e, g, blocks, vb')
    ensures WeightsKept(Weights(g, work'), conf', vb', acc1[id := w])
  {
    hide Weights, WeightsKept, Dag.Reaches, ConflictsExact, Symmetric, PairVoided, VoidedCarryOwn, Exact, Dag.Valid, Extended, SelfVoidedHaveCause, Anchored;
    KeptAfterArrival(dag, e, blocks, inputs, conf, conf', vb, vb', id, ins);
    AnchoredAfterTx(dag, full, blocks, vb, id, deps, ts, vb'[id]);
    ConflictsJoined(inputs, conf, conf', id, ins);
    ArrivalCauses(blocks, conf, conf', vb, inputs, id, ins);
    WeightsKeptAfterArrival(full, e, g, blocks, work, work', conf, conf', vb, vb', acc, acc1, id, deps, ts, w, inherited);
  }

  lemma EnteringParts(dag: Dag, full: Dag, e: Dag, g: Dag, blocks: set<Id>, work: map<Id, nat>, work': map<Id, nat>, inputs: Inputs,
                      conf: Conflicts, conf': Conflicts, vb: VoidedBy, acc: map<Id, nat>,
                      id: Id, deps: set<Id>, ins: set<TxInput>, ts: nat, w: nat)
    requires Entering(dag, full, e, g, blocks, work, work', inputs, conf, conf', vb, acc, id, deps, ins, ts, w)
    ensures dag.Valid() && Exact(dag, vb) && Acceptable(dag, id, deps, ts) && e == Extended(dag, id, deps, ts) && deps <= vb.Keys
    ensures acc.Keys == vb.Keys && e.deps.Keys == vb.Keys + {id} == conf'.Keys && g.Valid() && work'.Keys == g.deps.Keys
  {
  }

  /** The voidance and the weights right after a newcomer inherited, before anything is settled. */
  method Inherit(dag: Dag, ghost full: Dag, ghost e: Dag, ghost g: Dag, ghost blocks: set<Id>, ghost work: map<Id, nat>, ghost work': map<Id, nat>,
                 ghost inputs: Inputs, ghost conf: Conflicts, conf': Conflicts, vb: VoidedBy, acc: map<Id, nat>,
                 id: Id, deps: set<Id>, ghost ins: set<TxInput>, ts: nat, w: nat)
    returns (vb': VoidedBy, acc': map<Id, nat>, inherited: set<Id>)
    requires Entering(dag, full, e, g, blocks, work, work', inputs, conf, conf', vb, acc, id, deps, ins, ts, w)
    ensures id in conf' && VoidanceKept(e, blocks, conf', vb', conf'[id]) && Anchored(e, g, blocks, vb') && inherited <= vb'.Keys
    ensures WeightsKept(Weights(g, work'), conf', vb', acc')
    ensures vb'.Keys == acc'.Keys == e.deps.Keys && id in vb' && vb' == vb[id := inherited + (if conf'[id] != {} then {id} else {})]
    ensures deps <= vb.Keys && ((forall p :: p in deps ==> vb[p] == {}) ==> inherited == {})
    ensures inherited == Carried(vb, deps) && vb' == Entered(vb, deps, conf', id)
  {
    hide Entering, Weights, WeightsKept, Dag.Reaches, VoidanceKept, Elements, IsUnion, Exact, Extended, Acceptable, Dag.Valid, Anchored;
    EnteringParts(dag, full, e, g, blocks, work, work', inputs, conf, conf', vb, acc, id, deps, ins, ts, w);
    var acc1;
    vb', acc1, inherited := Collect(dag, vb, acc, id, deps, ts, w, conf'[id] != {});
    InheritKept(dag, full, e, g, blocks, work, work', inputs, conf, conf', vb, vb', acc, acc1, id, deps, ins, ts, w, inherited);
    acc' := acc1[id := w];
  }

  /** What a newcomer carries, exactly, and the weights of what voids it. */
  method Collect(ghost dag: Dag, vb: VoidedBy, acc: map<Id, nat>, id: Id, deps: set<Id>, ghost ts: nat, w: nat, own: bool)
    returns (vb': VoidedBy, acc': map<Id, nat>, inherited: set<Id>)
    requires Acceptable(dag, id, deps, ts) && dag.Valid() && Exact(dag, vb) && deps <= vb.Keys && acc.Keys == vb.Keys
    ensures Extended(dag, id, deps, ts).Valid() && Exact(Extended(dag, id, deps, ts), vb') && id !in inherited && inherited <= vb.Keys
    ensures vb' == vb[id := inherited + (if own then {id} else {})] && IsUnion(vb, deps, inherited)
    ensures acc'.Keys == acc.Keys && forall x :: x in acc ==> acc'[x] == acc[x] + if x in inherited then w else 0
    ensures (forall p :: p in deps ==> vb[p] == {}) ==> inherited == {}
    ensures inherited == Carried(vb, deps)
  {
    hide Elements, IsUnion, Carried, Exact, Extended, Acceptable, Dag.Valid, Dag.Reaches;
    var list := ListOf(deps);
    inherited := UnionOf(vb, list);
    ExactAfterArrival(dag, vb, id, deps, ts, inherited, own);
    InheritedKnown(dag, vb, deps, inherited);
    NothingInherited(vb, deps, inherited);
    UnionIsCarried(vb, deps, inherited);
    acc' := AddWork(acc, inherited, w);
    vb' := vb[id := inherited + (if own then {id} else {})];
  }

  /** No block changes sides. */
  ghost predicate BlocksSame(blocks: set<Id>, vb: VoidedBy, vb': VoidedBy) {
    forall b :: b in blocks ==> b in vb && b in vb' && (b in vb'[b] <==> b in vb[b])
  }

  lemma BlocksStay(blocks: set<Id>, inputs: Inputs, conf': Conflicts, vb: VoidedBy, vb1: VoidedBy, vb': VoidedBy, id: Id, ins: set<TxInput>)
    requires (forall b :: b in blocks ==> b in inputs && inputs[b] == {}) && inputs.Keys == vb.Keys && id !in inputs
    requires LonersKept(conf', vb1, vb') && id in vb1 && vb1 == vb[id := vb1[id]] && ConflictsExact(inputs[id := ins], conf')
    ensures BlocksSame(blocks, vb, vb')
  {
    forall b | b in blocks ensures b in vb && b in vb' && (b in vb'[b] <==> b in vb[b]) {
      BlockHasNoConflicts(inputs[id := ins], conf', b);
    }
  }

  lemma InheritedKnown(d: Dag, vb: VoidedBy, deps: set<Id>, inherited: set<Id>)
    requires d.Valid() && Exact(d, vb) && deps <= vb.Keys && IsUnion(vb, deps, inherited)
    ensures inherited <= vb.Keys
  {
  }

  lemma NothingInherited(vb: VoidedBy, deps: set<Id>, inherited: set<Id>)
    requires deps <= vb.Keys && IsUnion(vb, deps, inherited)
    ensures (forall p :: p in deps ==> vb[p] == {}) ==> inherited == {}
  {
  }

  lemma UnionIsCarried(vb: VoidedBy, deps: set<Id>, inherited: set<Id>)
    requires deps <= vb.Keys && IsUnion(vb, deps, inherited)
    ensures inherited == Carried(vb, deps)
  {
  }

  /** Whatever the newcomer inherits comes before it. */
  lemma CarriedReaches(dag: Dag, vb: VoidedBy, id: Id, deps: set<Id>, ts: nat, t: Id)
    requires Acceptable(dag, id, deps, ts) && Exact(dag, vb) && deps <= vb.Keys && t in Carried(vb, deps)
    ensures var e := Extended(dag, id, deps, ts); t in vb && t != id && e.Valid() && id in e.deps && e.Reaches(t, id)
  {
    ExtendedValid(dag, id, deps, ts);
    var p :| p in deps && p in vb && t in vb[p];
    assert dag.Reaches(t, p);
    ExtendedReaches(dag, id, deps, ts, t, id);
  }

  /** What an arrival decides when one transaction alone voids all the newcomer points to. */
  ghost predicate VoiderDecided(g: Dag, blocks: set<Id>, work: map<Id, nat>, conf: Conflicts, vb: VoidedBy, vb': VoidedBy, deps: set<Id>, id: Id) {
    forall t: Id :: Carried(vb, deps) - blocks == {t} ==> Decided(g, work, conf, Entered(vb, deps, conf, id), vb', t)
  }

  lemma VoiderIsDecided(dag: Dag, e: Dag, g: Dag, blocks: set<Id>, work: map<Id, nat>, conf: Conflicts, vb: VoidedBy, vb1: VoidedBy, vb': VoidedBy,
                        acc: map<Id, nat>, id: Id, deps: set<Id>, ts: nat, course: Course)
    requires Acceptable(dag, id, deps, ts) && e == Extended(dag, id, deps, ts) && Exact(dag, vb) && deps <= vb.Keys && vb1 == Entered(vb, deps, conf, id)
    requires id in conf && Ready(e, g, blocks, work, conf, vb1, acc, conf[id]) && Follows(e, g, blocks, work, conf, vb1, vb', id, Carried(vb, deps), course)
    ensures VoiderDecided(g, blocks, work, conf, vb, vb', deps, id)
  {
    hide Ready, Follows, Decided, Carried, Exact, Acceptable, Extended, Dag.Valid, Dag.Reaches;
    forall t: Id | Carried(vb, deps) - blocks == {t} ensures Decided(g, work, conf, vb1, vb', t) {
      assert t in Carried(vb, deps) - blocks;
      CarriedReaches(dag, vb, id, deps, ts, t);
      SoleVoiderDecided(e, g, blocks, work, conf, vb1, vb', acc, id, Carried(vb, deps), course, t);
    }
  }

  /** Whether an arrival without rivals of its own is refused, when one transaction alone voids all it
  points to. */
  ghost predicate VoiderRefuses(g: Dag, blocks: set<Id>, work: map<Id, nat>, conf: Conflicts, vb: VoidedBy, deps: set<Id>, id: Id, ok: bool) {
    forall t: Id :: Carried(vb, deps) - blocks == {t} ==>
      && (OverturnsIn(g, blocks, work, conf, Entered(vb, deps, conf, id), t) ==> !ok)
      && (id in conf && conf[id] == {} && !ok ==> OverturnsIn(g, blocks, work, conf, Entered(vb, deps, conf, id), t))
  }

  ghost predicate VoiderRefusesBy(g: Dag, blocks: set<Id>, work: map<Id, nat>, inputs: Inputs, vb: VoidedBy, deps: set<Id>, id: Id, ok: bool) {
    exists conf :: ConflictsExact(inputs, conf) && VoiderRefuses(g, blocks, work, conf, vb, deps, id, ok)
  }

  /** A transaction arrives and is settled, unless that would void a confirmed one. */
  method TransactionArrived(dag: Dag, full: Dag, blocks: set<Id>, work: map<Id, nat>, inputs: Inputs, spentBy: SpentBy,
                            conf: Conflicts, vb: VoidedBy, acc: map<Id, nat>,
                            id: Id, parents: set<Id>, ins: seq<TxInput>, ts: nat, w: nat)
    returns (spentBy': SpentBy, conf': Conflicts, vb': VoidedBy, acc': map<Id, nat>, checks: set<Id>, ok: bool, ghost course: Course)
    requires Consistent(dag, full, blocks, work, inputs, spentBy, conf, vb, acc)
    requires AcceptableTx(full, blocks, id, parents, ins, ts, w)
    ensures var deps, work', inputs' := parents + SpentTxs(ins), work[id := w], inputs[id := InputSet(ins)];
            && ConflictsExact(inputs', conf')
            && (ok ==> Consistent(Extended(dag, id, deps, ts), Extended(full, id, deps, ts), blocks, work', inputs', spentBy', conf', vb', acc'))
            && (ok ==> ResolvedIn(Extended(full, id, deps, ts), work', conf', vb', id))
            && (!ok ==> Challenged(Extended(full, id, deps, ts), blocks, work', conf'))
            && (ExecutedAll(vb, deps) ==> (ok <==> !OverturnsIn(Extended(full, id, deps, ts), blocks, work', conf', vb[id := {id}], id)))
            && VoiderRefuses(Extended(full, id, deps, ts), blocks, work', conf', vb, deps, id, ok)
            && (ok ==> checks == Asked(course) &&
                       Follows(Extended(dag, id, deps, ts), Extended(full, id, deps, ts), blocks, work', conf', Entered(vb, deps, conf', id), vb', id,
                               Carried(vb, deps), course))
            && (ok ==> VoiderDecided(Extended(full, id, deps, ts), blocks, work', conf', vb, vb', deps, id))
    ensures ok ==> BlocksSame(blocks, vb, vb')
  {
    hide *;
    var deps := parents + SpentTxs(ins);
    var e, g, work' := Extended(dag, id, deps, ts), Extended(full, id, deps, ts), work[id := w];
    ConsistentParts(dag, full, blocks, work, inputs, spentBy, conf, vb, acc, id, parents, ins, ts, w);
    conf', spentBy' := MarkInputsAsUsed(inputs, conf, spentBy, id, ins);
    EnteringReady(dag, full, blocks, work, inputs, spentBy, conf, conf', vb, acc, id, parents, ins, ts, w);
    var inherited;
    vb', acc', inherited := Inherit(dag, full, e, g, blocks, work, work', inputs, conf, conf', vb, acc, id, deps, InputSet(ins), ts, w);
    ghost var vb1 := vb';
    NewcomerReady(e, g, blocks, work', inputs, conf', vb', acc', id, InputSet(ins));
    ghost var acc1 := acc';
    vb', acc', checks, ok, course := Settle(e, g, blocks, work', conf', vb', acc', id, inherited);
    ExecutedMeans(vb, deps);
    if ExecutedAll(vb, deps) {
      FirstContest(g, blocks, work', conf', vb, vb1, id);
    }
    Refusing(g, blocks, work', conf', vb, deps, id, ok);
    if ok {
      VoiderIsDecided(dag, e, g, blocks, work', conf', vb, vb1, vb', acc1, id, deps, ts, course);
      BlocksStay(blocks, inputs, conf', vb, vb1, vb', id, InputSet(ins));
      ConsistentAgain(e, g, blocks, work', inputs, spentBy', conf', vb', acc', id, InputSet(ins));
    }
  }

  ghost predicate ExecutedAll(vb: VoidedBy, s: set<Id>) {
    forall t :: t in s ==> t in vb && vb[t] == {}
  }

  lemma ExecutedMeans(vb: VoidedBy, s: set<Id>)
    requires s <= vb.Keys
    ensures ExecutedAll(vb, s) <==> forall t :: t in s ==> vb[t] == {}
  {
  }

  /** A newcomer that inherits nothing is up for a contest exactly when it has rivals. */
  lemma FirstContest(g: Dag, blocks: set<Id>, work: map<Id, nat>, conf: Conflicts, vb: VoidedBy, vb1: VoidedBy, id: Id)
    requires id in conf && vb1 == vb[id := {} + (if conf[id] != {} then {id} else {})]
    ensures OverturnsIn(g, blocks, work, conf, vb[id := {id}], id) <==> OverturnsIn(g, blocks, work, conf, vb1, id)
  {
    hide Confirmed, Weights, Dag.Valid;
    if conf[id] != {} {
      assert {} + {id} == {id} && vb1 == vb[id := {id}];
    }
  }

  lemma Refusing(g: Dag, blocks: set<Id>, work: map<Id, nat>, conf: Conflicts, vb: VoidedBy, deps: set<Id>, id: Id, ok: bool)
    requires forall t: Id :: Carried(vb, deps) - blocks == {t} && OverturnsIn(g, blocks, work, conf, Entered(vb, deps, conf, id), t) ==> !ok
    requires id in conf
    requires forall t: Id :: Carried(vb, deps) - blocks == {t} && conf[id] == {} && !ok ==> OverturnsIn(g, blocks, work, conf, Entered(vb, deps, conf, id), t)
    ensures VoiderRefuses(g, blocks, work, conf, vb, deps, id, ok)
  {
    hide OverturnsIn, Carried, Entered;
  }

  lemma ArrivalSeen(g: Dag, blocks: set<Id>, work: map<Id, nat>, inputs: Inputs, conf: Conflicts, vb: VoidedBy, deps: set<Id>, id: Id, ok: bool)
    requires ConflictsExact(inputs, conf) && VoiderRefuses(g, blocks, work, conf, vb, deps, id, ok)
    requires !ok ==> Challenged(g, blocks, work, conf)
    ensures VoiderRefusesBy(g, blocks, work, inputs, vb, deps, id, ok) && (!ok ==> ChallengedBy(g, blocks, work, inputs))
    ensures OverturnsOnArrival(g, blocks, work, inputs, vb[id := {id}], id) <==> OverturnsIn(g, blocks, work, conf, vb[id := {id}], id)
  {
    hide ConflictsExact, VoiderRefuses, Challenged, OverturnsIn, OverturnsOnArrival;
    OverturnsEither(g, blocks, work, inputs, conf, vb[id := {id}], id);
  }

  /** Given who spends what, a confirmed transaction has a rival of at least its weight. */
  ghost predicate ChallengedBy(full: Dag, blocks: set<Id>, work: map<Id, nat>, inputs: Inputs) {
    exists conf :: ConflictsExact(inputs, conf) && Challenged(full, blocks, work, conf)
  }

  /** The same, given who spends what. */
  ghost predicate OverturnsOnArrival(full: Dag, blocks: set<Id>, work: map<Id, nat>, inputs: Inputs, vb: VoidedBy, t: Id) {
    exists conf :: ConflictsExact(inputs, conf) && OverturnsIn(full, blocks, work, conf, vb, t)
  }

  /** Who spends what decides who conflicts with whom. */
  lemma OverturnsEither(full: Dag, blocks: set<Id>, work: map<Id, nat>, inputs: Inputs, conf: Conflicts, vb: VoidedBy, t: Id)
    requires ConflictsExact(inputs, conf)
    ensures OverturnsOnArrival(full, blocks, work, inputs, vb, t) <==> OverturnsIn(full, blocks, work, conf, vb, t)
  {
    forall other | ConflictsExact(inputs, other) ensures other == conf {
      forall v | v in conf ensures other[v] == conf[v] {
        assert forall c :: c in other[v] <==> c in conf[v];
      }
    }
  }

  lemma NewcomerReady(e: Dag, g: Dag, blocks: set<Id>, work: map<Id, nat>, inputs: Inputs, conf: Conflicts, vb: VoidedBy, acc: map<Id, nat>,
                      id: Id, ins: set<TxInput>)
    requires id in conf && VoidanceKept(e, blocks, conf, vb, conf[id]) && Anchored(e, g, blocks, vb)
    requires g.Valid() && work.Keys == g.deps.Keys == vb.Keys && WeightsKept(Weights(g, work), conf, vb, acc)
    requires (forall x :: x in work ==> work[x] > 0) && id !in inputs && (forall b :: b in blocks ==> b in inputs && inputs[b] == {})
    requires ConflictsExact(inputs[id := ins], conf)
    ensures Ready(e, g, blocks, work, conf, vb, acc, conf[id])
  {
    hide Ready, VoidanceKept, Anchored, Weights, WeightsKept, ConflictsExact;
    ConflictKeys(inputs[id := ins], conf);
    forall b | b in blocks ensures conf[b] == {} {
      BlockHasNoConflicts(inputs[id := ins], conf, b);
    }
    ReadyAgain(e, g, blocks, work, conf, vb, acc, conf[id]);
  }

  lemma ConflictKeys(inputs: Inputs, conf: Conflicts)
    requires ConflictsExact(inputs, conf)
    ensures conf.Keys == inputs.Keys
  {
  }

  lemma ConsistentParts(dag: Dag, full: Dag, blocks: set<Id>, work: map<Id, nat>, inputs: Inputs, spentBy: SpentBy,
                        conf: Conflicts, vb: VoidedBy, acc: map<Id, nat>,
                        id: Id, parents: set<Id>, ins: seq<TxInput>, ts: nat, w: nat)
    requires Consistent(dag, full, blocks, work, inputs, spentBy, conf, vb, acc)
    requires AcceptableTx(full, blocks, id, parents, ins, ts, w)
    ensures SpentExact(inputs, spentBy) && ConflictsExact(inputs, conf) && id !in inputs && dag.Valid() && Exact(dag, vb)
    ensures forall k, l :: 0 <= k < l < |ins| ==> ins[k] != ins[l]
    ensures dag.Valid() && inputs.Keys == work.Keys == vb.Keys == acc.Keys == dag.deps.Keys == full.deps.Keys && blocks <= vb.Keys
    ensures forall b :: b in blocks ==> b in inputs && inputs[b] == {}
    ensures var deps := parents + SpentTxs(ins);
            var e, g, work' := Extended(dag, id, deps, ts), Extended(full, id, deps, ts), work[id := w];
            && Acceptable(dag, id, deps, ts) && Acceptable(full, id, deps, ts) && e.Valid() && g.Valid() && blocks <= g.deps.Keys
            && work'.Keys == e.deps.Keys == g.deps.Keys == inputs.Keys + {id} && deps <= vb.Keys && forall x :: x in work' ==> work'[x] > 0
  {
    hide Weights, WeightsKept, Dag.Reaches, Exact, Ready, VoidanceKept, Anchored, BareOf, Consistent, Symmetric;
    hide SpentExact, ConflictsExact, InputSet, SpentTxs, Extended, Extends, Dag.Valid, Acceptable;
    var deps := parents + SpentTxs(ins);
    Basics(dag, full, blocks, work, inputs, spentBy, conf, vb, acc);
    NotKnown(full, id, deps, ts);
    BareKnows(dag, full, blocks, id, deps, deps, ts);
    ExtendedValid(dag, id, deps, ts);
    ExtendedValid(full, id, deps, ts);
    ReadyParts(dag, full, blocks, work, conf, vb, acc, {});
    WorkGrows(work, work[id := w], id, w);
  }

  lemma WorkGrows(work: map<Id, nat>, work': map<Id, nat>, id: Id, w: nat)
    requires work' == work[id := w] && w > 0 && forall x :: x in work ==> work[x] > 0
    ensures work'.Keys == work.Keys + {id} && forall x :: x in work' ==> work'[x] > 0
  {
  }

  lemma NotKnown(d: Dag, id: Id, deps: set<Id>, ts: nat)
    requires Acceptable(d, id, deps, ts)
    ensures id !in d.deps && deps <= d.deps.Keys
  {
  }

  lemma EnteringReady(dag: Dag, full: Dag, blocks: set<Id>, work: map<Id, nat>, inputs: Inputs, spentBy: SpentBy,
                      conf: Conflicts, conf': Conflicts, vb: VoidedBy, acc: map<Id, nat>,
                      id: Id, parents: set<Id>, ins: seq<TxInput>, ts: nat, w: nat)
    requires Consistent(dag, full, blocks, work, inputs, spentBy, conf, vb, acc)
    requires AcceptableTx(full, blocks, id, parents, ins, ts, w)
    requires ConflictsExact(inputs[id := InputSet(ins)], conf') && conf'.Keys == inputs.Keys + {id}
    ensures var deps := parents + SpentTxs(ins);
            var e, g, work' := Extended(dag, id, deps, ts), Extended(full, id, deps, ts), work[id := w];
            Entering(dag, full, e, g, blocks, work, work', inputs, conf, conf', vb, acc, id, deps, InputSet(ins), ts, w)
  {
    hide Weights, WeightsKept, Dag.Reaches, Exact, VoidanceKept, Anchored, Ready, BareOf, Consistent, AcceptableTx;
    hide SpentExact, ConflictsExact, InputSet, SpentTxs, Extended, Extends, Acceptable, Dag.Valid;
    Basics(dag, full, blocks, work, inputs, spentBy, conf, vb, acc);
    ReadyParts(dag, full, blocks, work, conf, vb, acc, {});
    ConsistentParts(dag, full, blocks, work, inputs, spentBy, conf, vb, acc, id, parents, ins, ts, w);
  }

  lemma ConsistentAgain(e: Dag, g: Dag, blocks: set<Id>, work: map<Id, nat>, inputs: Inputs, spentBy: SpentBy,
                        conf: Conflicts, vb: VoidedBy, acc: map<Id, nat>, id: Id, ins: set<TxInput>)
    requires Ready(e, g, blocks, work, conf, vb, acc, {}) && work.Keys == inputs.Keys + {id} && id !in inputs
    requires forall b :: b in blocks ==> b in inputs && inputs[b] == {}
    requires SpentExact(inputs[id := ins], spentBy) && ConflictsExact(inputs[id := ins], conf)
    ensures Consistent(e, g, blocks, work, inputs[id := ins], spentBy, conf, vb, acc)
  {
    hide Ready, SpentExact, ConflictsExact;
  }

  /** A block adds its work to what it comes after; nothing voided is among that. */
  lemma BlockWeights(f: Dag, e: Dag, g: Dag, blocks: set<Id>, work: map<Id, nat>, work': map<Id, nat>, conf: Conflicts, conf': Conflicts,
                     vb: VoidedBy, vb': VoidedBy, acc: map<Id, nat>, id: Id, deps: set<Id>, ts: nat, w: nat)
    requires Acceptable(f, id, deps, ts) && work.Keys == conf.Keys == vb.Keys == acc.Keys == f.deps.Keys
    requires g == Extended(f, id, deps, ts) && g.Valid() && work' == work[id := w] && work'.Keys == g.deps.Keys
    requires conf'.Keys == vb'.Keys == vb.Keys + {id} && forall v :: v in vb ==> vb'[v] == vb[v]
    requires (forall v :: v in conf ==> conf'[v] == conf[v]) && (forall b :: b in blocks && b in conf ==> conf[b] == {}) && id in blocks
    requires WeightsKept(Weights(f, work), conf, vb, acc) && Anchored(e, g, blocks, vb')
    ensures WeightsKept(Weights(g, work'), conf', vb', acc[id := w])
  {
    hide Weights, WeightsKept, Anchored, Dag.Reaches, Extended, Confirmed, BareOf;
    NotKnown(f, id, deps, ts);
    AnchoredParts(e, g, blocks, vb');
    var above := WeightsGrow(f, work, id, deps, ts, w);
    forall v | v in vb && v in vb[v] && conf[v] != {} ensures v !in above {
      NotBeforeBlock(e, g, blocks, vb', id, v);
    }
    WeightsFollow(Weights(f, work), Weights(g, work'), conf, conf', vb, vb', acc, acc, id, w, {}, above);
  }

  lemma NotBeforeBlock(e: Dag, g: Dag, blocks: set<Id>, vb: VoidedBy, b: Id, v: Id)
    requires Anchored(e, g, blocks, vb) && b in blocks && v in vb && v in vb[v] && v !in blocks
    ensures !g.Reaches(v, b)
  {
    assert !Confirmed(g, blocks, v);
  }

  lemma BlockRivals(blocks: set<Id>, conf: Conflicts, conf': Conflicts, vb: VoidedBy, vb': VoidedBy, id: Id)
    requires PairVoided(conf, vb) && VoidedCarryOwn(conf, vb, {}) && SelfVoidedHaveCause(blocks, conf, vb) && id !in conf
    requires conf' == conf[id := {}] && vb'.Keys == conf'.Keys && forall v :: v in vb ==> vb'[v] == vb[v]
    ensures PairVoided(conf', vb') && VoidedCarryOwn(conf', vb', {}) && SelfVoidedHaveCause(blocks + {id}, conf', vb')
  {
  }

  lemma BlockExact(d: Dag, vb: VoidedBy, id: Id, ts: nat, voided: bool)
    requires Acceptable(d, id, {}, ts) && Exact(d, vb) && Extended(d, id, {}, ts).Valid()
    ensures Exact(Extended(d, id, {}, ts), vb[id := if voided then {id} else {}])
  {
    hide Exact, Dag.Reaches;
    ExactAfterArrival(d, vb, id, {}, ts, {}, voided);
    assert {} + (if voided then {id} else {}) == if voided then {id} else {};
  }

  lemma BlockVoidance(d: Dag, e: Dag, blocks: set<Id>, inputs: Inputs, conf: Conflicts, conf': Conflicts,
                      vb: VoidedBy, vb': VoidedBy, id: Id, ts: nat, voided: bool)
    requires VoidanceKept(d, blocks, conf, vb, {}) && Acceptable(d, id, {}, ts) && e == Extended(d, id, {}, ts) && e.Valid()
    requires ConflictsExact(inputs[id := {}], conf') && conf' == conf[id := {}] && e.deps.Keys == conf'.Keys
    requires vb' == vb[id := if voided then {id} else {}] && vb'.Keys == conf'.Keys && id !in conf
    ensures VoidanceKept(e, blocks + {id}, conf', vb', {})
  {
    hide Exact, Dag.Reaches, ConflictsExact, Dag.Valid, Acceptable, Symmetric, PairVoided, VoidedCarryOwn, SelfVoidedHaveCause, Extended;
    ConflictsSymmetric(inputs[id := {}], conf');
    BlockRivals(blocks, conf, conf', vb, vb', id);
    BlockExact(d, vb, id, ts, voided);
  }

  /** What a block may point to: known, strictly older vertices; its parent is a block and the
  transactions it confirms are executed. */
  ghost predicate AcceptableBlock(full: Dag, blocks: set<Id>, vb: VoidedBy, id: Id, deps: set<Id>, ts: nat, w: nat) {
    && Acceptable(full, id, deps, ts) && w > 0
    && forall p :: p in deps ==> p in blocks || (p in vb && vb[p] == {})
  }

  /** A block arrives, on the best chain or, when `voided`, off it.  It spends nothing and confirms
  executed transactions. */
  lemma BlockArrived(dag: Dag, full: Dag, blocks: set<Id>, work: map<Id, nat>, inputs: Inputs, spentBy: SpentBy,
                     conf: Conflicts, vb: VoidedBy, acc: map<Id, nat>, id: Id, deps: set<Id>, ts: nat, w: nat, voided: bool)
    requires Consistent(dag, full, blocks, work, inputs, spentBy, conf, vb, acc) && AcceptableBlock(full, blocks, vb, id, deps, ts, w)
    ensures Consistent(Extended(dag, id, {}, ts), Extended(full, id, deps, ts), blocks + {id}, work[id := w], inputs[id := {}], spentBy,
                       conf[id := {}], vb[id := if voided then {id} else {}], acc[id := w])
  {
    hide Consistent, Ready, Weights, WeightsKept, Dag.Valid, ConflictsExact, SpentExact, Extends, VoidanceKept, Extended, Anchored, Acceptable;
    hide Exact, BareOf;
    var e, g := Extended(dag, id, {}, ts), Extended(full, id, deps, ts);
    var hashes := if voided then {id} else {};
    var vb', conf', work' := vb[id := hashes], conf[id := {}], work[id := w];
    Basics(dag, full, blocks, work, inputs, spentBy, conf, vb, acc);
    ReadyParts(dag, full, blocks, work, conf, vb, acc, {});
    BlockParts(dag, full, blocks, inputs, spentBy, conf, id, deps, ts);
    KeysGrow(work, id, w);
    KeysGrow(conf, id, {});
    KeysGrow(vb, id, hashes);
    KeysGrow(acc, id, w);
    KeysGrow(inputs, id, {});
    BlockVoidance(dag, e, blocks, inputs, conf, conf', vb, vb', id, ts, voided);
    AnchoredAfterBlock(dag, full, blocks, vb, id, deps, ts, hashes);
    BlockWeights(full, e, g, blocks + {id}, work, work', conf, conf', vb, vb', acc, id, deps, ts, w);
    ReadyAgain(e, g, blocks + {id}, work', conf', vb', acc[id := w], {});
    ConsistentWithBlock(e, g, blocks, work', inputs, spentBy, conf', vb', acc[id := w], id);
  }

  lemma ConsistentWithBlock(e: Dag, g: Dag, blocks: set<Id>, work: map<Id, nat>, inputs: Inputs, spentBy: SpentBy,
                            conf: Conflicts, vb: VoidedBy, acc: map<Id, nat>, id: Id)
    requires Ready(e, g, blocks + {id}, work, conf, vb, acc, {}) && work.Keys == inputs.Keys + {id}
    requires forall b :: b in blocks ==> b in inputs && inputs[b] == {}
    requires SpentExact(inputs[id := {}], spentBy) && ConflictsExact(inputs[id := {}], conf)
    ensures Consistent(e, g, blocks + {id}, work, inputs[id := {}], spentBy, conf, vb, acc)
  {
    hide Ready, SpentExact, ConflictsExact;
  }

  lemma BlockParts(dag: Dag, full: Dag, blocks: set<Id>, inputs: Inputs, spentBy: SpentBy, conf: Conflicts, id: Id, deps: set<Id>, ts: nat)
    requires BareOf(dag, full, blocks) && Acceptable(full, id, deps, ts) && inputs.Keys == full.deps.Keys
    requires SpentExact(inputs, spentBy) && ConflictsExact(inputs, conf)
    ensures id !in inputs && Acceptable(dag, id, {}, ts) && Extended(dag, id, {}, ts).Valid() && Extended(full, id, deps, ts).Valid()
    ensures Extended(dag, id, {}, ts).deps.Keys == dag.deps.Keys + {id} && Extended(full, id, deps, ts).deps.Keys == full.deps.Keys + {id}
    ensures SpentExact(inputs[id := {}], spentBy) && ConflictsExact(inputs[id := {}], conf[id := {}])
  {
    hide BareOf, Dag.Valid, SpentExact, ConflictsExact, Extended, Extends, Acceptable;
    BareKnows(dag, full, blocks, id, deps, {}, ts);
    NotKnown(full, id, deps, ts);
    ExtendedValid(dag, id, {}, ts);
    ExtendedValid(full, id, deps, ts);
    NoInputsYet(inputs, conf, spentBy, id);
  }

  // ----- what confirmation is worth -----

  /** Every confirmed transaction is executed. */
  lemma ConfirmedIsExecuted(dag: Dag, full: Dag, blocks: set<Id>, work: map<Id, nat>, inputs: Inputs, spentBy: SpentBy,
                            conf: Conflicts, vb: VoidedBy, acc: map<Id, nat>, t: Id, b: Id)
    requires Consistent(dag, full, blocks, work, inputs, spentBy, conf, vb, acc)
    requires t in vb && t !in blocks && b in blocks && full.Reaches(t, b)
    ensures vb[t] == {}
  {
    assert Confirmed(full, blocks, t);
  }

  /** The work of a block counts for what it confirms: a double spend that does not reach it loses. */
  lemma ConfirmedPrevails(dag: Dag, full: Dag, blocks: set<Id>, work: map<Id, nat>, inputs: Inputs, spentBy: SpentBy,
                          conf: Conflicts, vb: VoidedBy, acc: map<Id, nat>, t: Id, c: Id, b: Id)
    requires Consistent(dag, full, blocks, work, inputs, spentBy, conf, vb, acc)
    requires t in conf && c in conf[t] && b in blocks && full.Reaches(c, b)
    requires work[c] + work[b] > Weights(full, work)[t]
    ensures Loses(Weights(full, work), conf, vb, t)
  {
    hide Weights, Ready, Consistent, SpentExact, ConflictsExact, Exact, WeightsKept, Anchored, BareOf, VoidanceKept, Dag.Reaches, Dag.Valid;
    Basics(dag, full, blocks, work, inputs, spentBy, conf, vb, acc);
    ReadyParts(dag, full, blocks, work, conf, vb, acc, {});
    assert c in conf && t in conf[c];
    ConfirmedIsExecuted(dag, full, blocks, work, inputs, spentBy, conf, vb, acc, c, b);
    BlockWorkCounts(full, work, c, b);
  }

  lemma BlockWorkCounts(full: Dag, work: map<Id, nat>, c: Id, b: Id)
    requires full.Valid() && work.Keys == full.deps.Keys && c in work && b in work && c != b && full.Reaches(c, b)
    ensures Weights(full, work)[c] >= work[c] + work[b]
  {
    WorkOfAdd(work, {}, c);
    WorkOfAdd(work, {c}, b);
    assert {} + {c} == {c} && full.Reaches(c, c);
    WorkOfSubset(work, {c} + {b}, full.Desc(c));
  }

  /** The records of the consensus, updated in place.  Every operation keeps `Inv`, so it holds in
  every state any run reaches. */
  class TransactionLedger {
    /** Voidance spreads along `dag`; `full` has the edges that leave blocks too. */
    var dag: Dag
    var full: Dag
    var blocks: set<Id>
    var work: map<Id, nat>
    var inputs: Inputs
    var spentBy: SpentBy
    var conflictWith: Conflicts
    var voidedBy: VoidedBy
    var accWeight: map<Id, nat>
    /** Transactions whose conflicts a push or a removal asked to be checked again. */
    var pending: set<Id>

    ghost predicate Inv()
      reads this
    {
      Consistent(dag, full, blocks, work, inputs, spentBy, conflictWith, voidedBy, accWeight)
    }

    constructor ()
      ensures Inv() && dag == full == Dag(map[], map[]) && blocks == {}
    {
      dag, full, blocks, work, inputs, spentBy := Dag(map[], map[]), Dag(map[], map[]), {}, map[], map[], map[];
      conflictWith, voidedBy, accWeight, pending := map[], map[], map[], {};
    }

    /** A transaction arrives.  Nothing changes, and `ok` is false, when settling it would void a
    confirmed transaction; then a confirmed transaction has a rival of at least its weight. */
    method NewTransaction(id: Id, parents: set<Id>, ins: seq<TxInput>, ts: nat, w: nat) returns (ok: bool)
      requires Inv() && AcceptableTx(full, blocks, id, parents, ins, ts, w)
      modifies this
      ensures Inv() && blocks == old(blocks)
      ensures ok ==> dag == Extended(old(dag), id, parents + SpentTxs(ins), ts) && full == Extended(old(full), id, parents + SpentTxs(ins), ts)
      ensures ok ==> work == old(work)[id := w] && inputs == old(inputs)[id := InputSet(ins)]
      ensures ok ==> ResolvedIn(full, work, conflictWith, voidedBy, id) && BlocksSame(blocks, old(voidedBy), voidedBy)
      ensures !ok ==> unchanged(this)
      ensures !ok ==> ChallengedBy(Extended(full, id, parents + SpentTxs(ins), ts), blocks, work[id := w], inputs[id := InputSet(ins)])
      ensures ExecutedAll(old(voidedBy), parents + SpentTxs(ins)) ==>
                (ok <==> !OverturnsOnArrival(Extended(old(full), id, parents + SpentTxs(ins), ts), blocks, old(work)[id := w],
                                             old(inputs)[id := InputSet(ins)], old(voidedBy)[id := {id}], id))
      ensures ok ==> VoiderDecided(full, blocks, work, conflictWith, old(voidedBy), voidedBy, parents + SpentTxs(ins), id)
      ensures VoiderRefusesBy(Extended(old(full), id, parents + SpentTxs(ins), ts), blocks, old(work)[id := w], old(inputs)[id := InputSet(ins)],
                              old(voidedBy), parents + SpentTxs(ins), id, ok)
      ensures ok ==> exists course :: Follows(dag, full, blocks, work, conflictWith, Entered(old(voidedBy), parents + SpentTxs(ins), conflictWith, id),
                                              voidedBy, id, Carried(old(voidedBy), parents + SpentTxs(ins)), course) &&
                                      pending == old(pending) + Asked(course)
    {
      hide Challenged, ConflictsExact, ResolvedIn, OverturnsIn, OverturnsOnArrival, ExecutedAll, VoiderDecided, VoiderRefuses, VoiderRefusesBy, ChallengedBy, Follows, Entered, Carried, Asked;
      hide Consistent, Extended, SpentTxs, InputSet, Elements, Separate, Cleared, AcceptableTx, Dag.Desc, Dag.Next, Dag.Valid, Resolved, BlocksSame, Weights;
      var spent, conf, vb, acc, checks;
      ghost var course;
      spent, conf, vb, acc, checks, ok, course :=
        TransactionArrived(dag, full, blocks, work, inputs, spentBy, conflictWith, voidedBy, accWeight, id, parents, ins, ts, w);
      ArrivalSeen(Extended(full, id, parents + SpentTxs(ins), ts), blocks, work[id := w], inputs[id := InputSet(ins)], conf, voidedBy,
                  parents + SpentTxs(ins), id, ok);
      if ok {
        var used := set i | i in ins;
        var deps := parents + SpentTxs(ins);
        InputSetIs(ins);
        dag, full, work, inputs := Extended(dag, id, deps, ts), Extended(full, id, deps, ts), work[id := w], inputs[id := used];
        spentBy, conflictWith, voidedBy, accWeight, pending := spent, conf, vb, acc, pending + checks;
      }
    }

    /** A block arrives with its parent and the transactions it confirms. */
    method NewBlock(id: Id, deps: set<Id>, ts: nat, w: nat, voided: bool)
      requires Inv() && AcceptableBlock(full, blocks, voidedBy, id, deps, ts, w)
      modifies this
      ensures Inv() && blocks == old(blocks) + {id} && dag == Extended(old(dag), id, {}, ts) && full == Extended(old(full), id, deps, ts)
      ensures voidedBy == old(voidedBy)[id := if voided then {id} else {}] && work == old(work)[id := w]
      ensures inputs == old(inputs)[id := {}] && conflictWith == old(conflictWith)[id := {}] && spentBy == old(spentBy) && pending == old(pending)
    {
      hide Consistent, Extended, SpentTxs, InputSet, Elements, Separate, Cleared, AcceptableTx, AcceptableBlock, Dag.Desc, Dag.Next, Dag.Valid;
      BlockArrived(dag, full, blocks, work, inputs, spentBy, conflictWith, voidedBy, accWeight, id, deps, ts, w, voided);
      dag, full, blocks := Extended(dag, id, {}, ts), Extended(full, id, deps, ts), blocks + {id};
      work, inputs := work[id := w], inputs[id := {}];
      conflictWith, voidedBy := conflictWith[id := {}], voidedBy[id := if voided then {id} else {}];
      accWeight := accWeight[id := w];
    }

    /** Checks the conflicts of `t`, at any moment between two operations.  Nothing changes, and `ok` is
    false, exactly when that would void a confirmed transaction. */
    method Recheck(t: Id) returns (ok: bool)
      requires Inv() && t in voidedBy
      modifies this`voidedBy, this`accWeight, this`pending
      ensures Inv() && BlocksSame(blocks, old(voidedBy), voidedBy)
      ensures ok <==> !OverturnsIn(full, blocks, work, conflictWith, old(voidedBy), t)
      ensures ok ==> ResolvedIn(full, work, conflictWith, voidedBy, t)
      ensures if ok then exists asked :: Checked(dag, full, work, conflictWith, old(voidedBy), voidedBy, t, asked) && pending == old(pending) - {t} + asked
              else voidedBy == old(voidedBy) && pending == old(pending)
    {
      hide OverturnsIn, ResolvedIn, Checked;
      hide Consistent, Extended, SpentTxs, InputSet, Elements, Separate, Cleared, AcceptableTx, Dag.Desc, Dag.Next, Dag.Valid, Resolved, BlocksSame, Loses, Ties, Weights;
      var vb, acc, checks;
      vb, acc, checks, ok := TransactionRechecked(dag, full, blocks, work, inputs, spentBy, conflictWith, voidedBy, accWeight, t);
      voidedBy, accWeight := vb, acc;
      if ok {
        pending := pending - {t} + checks;
      }
    }

    /** A block leaves the best chain; nothing changes when the pushes from its spenders collide or
    would void a confirmed transaction. */
    method VoidBlock(b: Id, spenders: seq<Id>) returns (ok: bool)
      requires Inv() && b in blocks && b in voidedBy && b !in voidedBy[b] && Elements(spenders) == dag.Next(b)
      requires dag.Valid() && full.Valid() && blocks <= full.deps.Keys
      modifies this`voidedBy, this`accWeight, this`pending
      ensures Inv() && (ok <==> Separate(dag, b, spenders, |spenders|) && !SpenderConfirmed(dag, full, blocks, b))
      ensures ok ==> forall x :: x in voidedBy && x in dag.Desc(b) ==> b in voidedBy[x]
      ensures ok ==> Pushed(dag, old(voidedBy), voidedBy, dag.Desc(b), b, MustVoid(dag, conflictWith, old(voidedBy), b, b))
      ensures !ok ==> voidedBy == old(voidedBy) && accWeight == old(accWeight) && pending == old(pending)
      ensures ok ==> BlocksSame(blocks - {b}, old(voidedBy), voidedBy) && b in voidedBy && b in voidedBy[b]
      ensures ok ==> pending == old(pending) + ConflictsOf(conflictWith, DemotedBy(dag, conflictWith, old(voidedBy), b, spenders, |spenders|))
    {
      hide ConflictsOf, DemotedBy, BlocksSame, SpenderConfirmed, Pushed, MustVoid;
      hide Consistent, Extended, SpentTxs, InputSet, Elements, Separate, Cleared, AcceptableTx, Dag.Desc, Dag.Next, Dag.Valid;
      var vb, acc, checks;
      vb, acc, checks, ok :=
        BlockVoided(dag, full, blocks, work, inputs, spentBy, conflictWith, voidedBy, accWeight, b, spenders);
      if ok {
        voidedBy, accWeight, pending := vb, acc, pending + checks;
      }
    }

    /** A block joins the best chain: its hash is gone everywhere, all other hashes stay. */
    method UnvoidBlock(b: Id, spenders: seq<Id>)
      requires Inv() && b in blocks && b in voidedBy && b in voidedBy[b] && Elements(spenders) == dag.Next(b)
      modifies this`voidedBy, this`pending
      ensures Inv() && Cleared(old(voidedBy), voidedBy, old(voidedBy).Keys, b)
      ensures BlocksSame(blocks - {b}, old(voidedBy), voidedBy) && b in voidedBy && b !in voidedBy[b]
      ensures pending == old(pending) + LeftAlone(old(voidedBy), b, dag.Desc(b) - {b})
    {
      hide LeftAlone, BlocksSame;
      hide Consistent, Extended, SpentTxs, InputSet, Elements, Separate, Cleared, AcceptableTx, Dag.Desc, Dag.Next, Dag.Valid;
      var vb, checks := BlockUnvoided(dag, full, blocks, work, inputs, spentBy, conflictWith, voidedBy, accWeight, b, spenders);
      voidedBy, pending := vb, pending + checks;
    }
  }

  lemma InputSetIs(ins: seq<TxInput>)
    ensures InputSet(ins) == set i | i in ins
  {
  }
}
