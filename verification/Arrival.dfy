/** A new transaction enters the ledger: its inputs are marked as used, which finds its conflicts,
and it inherits the voidance of everything it points to. */
module Arrival {
  import opened Graph
  import opened Traversal
  import opened Ledger
  import opened Voidance
  import opened Confirmation
  import opened TransactionConsensus

  // ----- the DAG with one more vertex -----

  function Extended(d: Dag, id: Id, deps: set<Id>, ts: nat): Dag {
    Dag(d.deps[id := deps], d.ts[id := ts])
  }

  ghost predicate Acceptable(d: Dag, id: Id, deps: set<Id>, ts: nat) {
    d.Valid() && id !in d.deps && forall p :: p in deps ==> p in d.deps && d.ts[p] < ts
  }

  lemma ExtendedValid(d: Dag, id: Id, deps: set<Id>, ts: nat)
    requires Acceptable(d, id, deps, ts)
    ensures Extended(d, id, deps, ts).Valid() && Extends(d, Extended(d, id, deps, ts))
    ensures Extended(d, id, deps, ts).deps.Keys == d.deps.Keys + {id} && deps <= d.deps.Keys
  {
  }

  /** Old vertices keep their past, the new one inherits from what it points to, nothing comes after it. */
  lemma ExtendedReaches(d: Dag, id: Id, deps: set<Id>, ts: nat, u: Id, v: Id)
    requires Acceptable(d, id, deps, ts) && Extended(d, id, deps, ts).Valid()
    requires v in d.deps || v == id
    ensures v in d.deps ==> Extended(d, id, deps, ts).Reaches(u, v) == d.Reaches(u, v) && !d.Reaches(id, v)
    ensures v == id ==>
              (Extended(d, id, deps, ts).Reaches(u, v) <==> u == id || exists p :: p in deps && d.Reaches(u, p))
  {
    var e := Extended(d, id, deps, ts);
    if v in d.deps {
      ReachesExtension(d, e, u, v);
      if d.Reaches(id, v) {
        ReachesTimestamp(d, id, v);
      }
    } else {
      forall p | p in deps ensures e.Reaches(u, p) == d.Reaches(u, p) {
        ReachesExtension(d, e, u, p);
      }
    }
  }

  /** The hashes carried by the members of `deps`. */
  ghost predicate IsUnion(vb: VoidedBy, deps: set<Id>, u: set<Id>)
    requires deps <= vb.Keys
  {
    forall g {:trigger g in u} :: g in u <==> exists p :: p in deps && g in vb[p]
  }

  /** All the hashes carried by the members of `deps`. */
  ghost function Carried(vb: VoidedBy, deps: set<Id>): set<Id> {
    set p, g | p in deps && p in vb && g in vb[p] :: g
  }

  /** What voids a newcomer at first: the hashes carried by what it points to and, with rivals, its own. */
  ghost function Entered(vb: VoidedBy, deps: set<Id>, conf: Conflicts, id: Id): VoidedBy {
    vb[id := Carried(vb, deps) + if id in conf && conf[id] != {} then {id} else {}]
  }

  /** Inheriting keeps voidance exact; the new transaction voids itself when `own`. */
  lemma ExactAfterArrival(d: Dag, vb: VoidedBy, id: Id, deps: set<Id>, ts: nat, inherited: set<Id>, own: bool)
    requires Acceptable(d, id, deps, ts) && Exact(d, vb) && deps <= vb.Keys && IsUnion(vb, deps, inherited)
    ensures Extended(d, id, deps, ts).Valid()
    ensures Exact(Extended(d, id, deps, ts), vb[id := inherited + (if own then {id} else {})])
    ensures id !in inherited
  {
    ExtendedValid(d, id, deps, ts);
    var e, vb' := Extended(d, id, deps, ts), vb[id := inherited + (if own then {id} else {})];
    forall x, g | x in vb' ensures g in vb'[x] <==> g in vb' && g in vb'[g] && e.Reaches(g, x) {
      ExtendedReaches(d, id, deps, ts, g, x);
      if x == id {
        if g in inherited {
          var p :| p in deps && g in vb[p];
          assert g in vb && g in vb[g] && d.Reaches(g, p);
        }
        if g != id && g in vb' && g in vb'[g] && e.Reaches(g, id) {
          var p :| p in deps && d.Reaches(g, p);
          assert g in vb[p];
        }
      } else {
        assert g in vb[x] <==> g in vb && g in vb[g] && d.Reaches(g, x);
      }
    }
  }

  // ----- confirmations -----

  /** The bare DAG stays bare: a transaction brings the same edges to both, a block to the full one only. */
  lemma BareAfterArrival(d: Dag, f: Dag, blocks: set<Id>, id: Id, deps: set<Id>, ts: nat, block: bool)
    requires BareOf(d, f, blocks) && Acceptable(f, id, deps, ts)
    ensures var own := if block then {} else deps;
            && Acceptable(d, id, own, ts) && d.deps.Keys == f.deps.Keys
            && BareOf(Extended(d, id, own, ts), Extended(f, id, deps, ts), if block then blocks + {id} else blocks)
  {
    hide Extends;
    var own := if block then {} else deps;
    BareKnows(d, f, blocks, id, deps, own, ts);
    ExtendedValid(f, id, deps, ts);
    ExtendedValid(d, id, own, ts);
    hide Dag.Valid;
  }

  lemma BareKnows(d: Dag, f: Dag, blocks: set<Id>, id: Id, deps: set<Id>, own: set<Id>, ts: nat)
    requires BareOf(d, f, blocks) && Acceptable(f, id, deps, ts) && own <= deps
    ensures Acceptable(d, id, own, ts) && d.deps.Keys == f.deps.Keys
  {
    assert d.deps.Keys == d.ts.Keys == f.ts.Keys;
  }

  /** A new transaction confirms nothing and nothing confirms it. */
  lemma AnchoredAfterTx(d: Dag, f: Dag, blocks: set<Id>, vb: VoidedBy, id: Id, deps: set<Id>, ts: nat, hashes: set<Id>)
    requires Anchored(d, f, blocks, vb) && Acceptable(f, id, deps, ts)
    ensures Anchored(Extended(d, id, deps, ts), Extended(f, id, deps, ts), blocks, vb[id := hashes])
  {
    hide Confirmed;
    var e := Extended(f, id, deps, ts);
    BareAfterArrival(d, f, blocks, id, deps, ts, false);
    forall v ensures Confirmed(e, blocks, v) <==> v != id && Confirmed(f, blocks, v) {
      ConfirmedAfterTx(f, blocks, id, deps, ts, v);
    }
  }

  lemma ConfirmedAfterTx(f: Dag, blocks: set<Id>, id: Id, deps: set<Id>, ts: nat, v: Id)
    requires Acceptable(f, id, deps, ts) && Extended(f, id, deps, ts).Valid() && blocks <= f.deps.Keys
    ensures blocks <= Extended(f, id, deps, ts).deps.Keys
    ensures Confirmed(Extended(f, id, deps, ts), blocks, v) <==> v != id && Confirmed(f, blocks, v)
  {
    var e := Extended(f, id, deps, ts);
    forall b | b in blocks ensures e.Reaches(v, b) <==> v != id && f.Reaches(v, b) {
      ExtendedReaches(f, id, deps, ts, v, b);
    }
    if Confirmed(e, blocks, v) {
      var b :| b in blocks && e.Reaches(v, b);
      assert f.Reaches(v, b);
    }
    if v != id && Confirmed(f, blocks, v) {
      var b :| b in blocks && f.Reaches(v, b);
      assert e.Reaches(v, b);
    }
  }

  /** A new block confirms what it points to and all that comes before. */
  lemma ConfirmedAfterBlock(f: Dag, blocks: set<Id>, id: Id, deps: set<Id>, ts: nat, v: Id)
    requires Acceptable(f, id, deps, ts) && Extended(f, id, deps, ts).Valid() && blocks <= f.deps.Keys
    ensures Confirmed(Extended(f, id, deps, ts), blocks + {id}, v) <==>
            v == id || Confirmed(f, blocks, v) || exists p :: p in deps && f.Reaches(v, p)
  {
    var e := Extended(f, id, deps, ts);
    ExtendedReaches(f, id, deps, ts, v, id);
    forall b | b in blocks ensures e.Reaches(v, b) <==> f.Reaches(v, b) {
      ExtendedReaches(f, id, deps, ts, v, b);
    }
    if Confirmed(f, blocks, v) {
      var b :| b in blocks && f.Reaches(v, b);
      assert b in blocks + {id} && e.Reaches(v, b);
    }
    if e.Reaches(v, id) {
      assert id in blocks + {id};
    }
    if Confirmed(e, blocks + {id}, v) {
      var b :| b in blocks + {id} && e.Reaches(v, b);
      assert b == id || f.Reaches(v, b);
    }
  }

  lemma VoidanceSpreads(d: Dag, vb: VoidedBy, v: Id, p: Id)
    requires d.Valid() && Exact(d, vb) && v in vb && p in vb && d.Reaches(v, p)
    ensures vb[v] <= vb[p]
  {
    forall h | h in vb[v] ensures h in vb[p] {
      assert d.Reaches(h, v);
      ReachesTransitive(d, h, v, p);
    }
  }

  /** Everything before an executed transaction is executed, along the full DAG too. */
  lemma BeforeExecuted(d: Dag, f: Dag, blocks: set<Id>, vb: VoidedBy, v: Id, p: Id)
    requires Anchored(d, f, blocks, vb) && Exact(d, vb) && p in vb && v in vb && f.Reaches(v, p)
    requires v !in blocks && (p in blocks || vb[p] == {})
    ensures vb[v] == {}
  {
    if !Confirmed(f, blocks, v) {
      UnconfirmedReaches(d, f, blocks, v, p);
      VoidanceSpreads(d, vb, v, p);
    }
  }

  /** A block that points to blocks and executed transactions only confirms nothing voided. */
  lemma AnchoredAfterBlock(d: Dag, f: Dag, blocks: set<Id>, vb: VoidedBy, id: Id, deps: set<Id>, ts: nat, hashes: set<Id>)
    requires Anchored(d, f, blocks, vb) && Exact(d, vb) && Acceptable(f, id, deps, ts)
    requires forall p :: p in deps ==> p in blocks || (p in vb && vb[p] == {})
    ensures Anchored(Extended(d, id, {}, ts), Extended(f, id, deps, ts), blocks + {id}, vb[id := hashes])
  {
    hide Confirmed, Exact, BareOf, Dag.Reaches, Dag.Valid;
    var e := Extended(f, id, deps, ts);
    AnchoredParts(d, f, blocks, vb);
    ExtendedValid(f, id, deps, ts);
    BareAfterArrival(d, f, blocks, id, deps, ts, true);
    forall v | v in vb && v !in blocks && Confirmed(e, blocks + {id}, v) ensures vb[v] == {} {
      ConfirmedAfterBlock(f, blocks, id, deps, ts, v);
      if !Confirmed(f, blocks, v) {
        var p :| p in deps && f.Reaches(v, p);
        BeforeExecuted(d, f, blocks, vb, v, p);
      }
    }
  }

  // ----- conflicts -----

  type Inputs = map<Id, set<TxInput>>
  type SpentBy = map<TxInput, set<Id>>

  /** Every output knows exactly the transactions that spend it. */
  ghost predicate SpentExact(inputs: Inputs, spentBy: SpentBy) {
    forall i, v {:trigger v in spentBy[i]} {:trigger i in inputs[v]} ::
      (i in spentBy && v in spentBy[i]) <==> (v in inputs && i in inputs[v])
  }

  ghost predicate ShareInput(inputs: Inputs, v: Id, c: Id)
    requires v in inputs && c in inputs
  {
    exists i :: i in inputs[v] && i in inputs[c]
  }

  /** Two transactions are recorded as conflicting exactly when they share an input. */
  ghost predicate ConflictsExact(inputs: Inputs, conf: Conflicts) {
    && inputs.Keys == conf.Keys
    && forall v, c {:trigger c in conf[v]} :: v in conf ==>
         (c in conf[v] <==> c in inputs && c != v && ShareInput(inputs, v, c))
  }

  lemma ConflictsSymmetric(inputs: Inputs, conf: Conflicts)
    requires ConflictsExact(inputs, conf)
    ensures Symmetric(conf)
  {
    forall v, c | v in conf && c in conf[v] ensures v in conf[c] {
      var i :| i in inputs[v] && i in inputs[c];
      assert ShareInput(inputs, c, v);
    }
  }

  function Spenders(spentBy: SpentBy, i: TxInput): set<Id> {
    if i in spentBy then spentBy[i] else {}
  }

  /** The effect of marking one input of `id` as used. */
  function WithConflict(conf: Conflicts, id: Id, rivals: set<Id>): Conflicts
    requires id in conf
  {
    map v | v in conf :: if v == id then conf[id] + rivals else if v in rivals then conf[v] + {id} else conf[v]
  }

  lemma MarkInputStep(inputs: Inputs, conf: Conflicts, spentBy: SpentBy, id: Id, i: TxInput)
    requires SpentExact(inputs, spentBy) && ConflictsExact(inputs, conf) && id in inputs && i !in inputs[id]
    ensures var inputs' := inputs[id := inputs[id] + {i}];
            && SpentExact(inputs', spentBy[i := Spenders(spentBy, i) + {id}])
            && ConflictsExact(inputs', WithConflict(conf, id, Spenders(spentBy, i)))
  {
    var inputs', conf' := inputs[id := inputs[id] + {i}], WithConflict(conf, id, Spenders(spentBy, i));
    forall v, c | v in conf' ensures c in conf'[v] <==> c in inputs' && c != v && ShareInput(inputs', v, c) {
      if c in inputs && c != v {
        SharedInputStep(inputs, spentBy, id, i, v, c);
      }
    }
  }

  lemma SharedInputStep(inputs: Inputs, spentBy: SpentBy, id: Id, i: TxInput, v: Id, c: Id)
    requires SpentExact(inputs, spentBy) && id in inputs && i !in inputs[id] && v in inputs && c in inputs && v != c
    ensures ShareInput(inputs[id := inputs[id] + {i}], v, c) <==>
            ShareInput(inputs, v, c) || (v == id && c in Spenders(spentBy, i)) || (c == id && v in Spenders(spentBy, i))
  {
    var inputs' := inputs[id := inputs[id] + {i}];
    if ShareInput(inputs, v, c) {
      var j :| j in inputs[v] && j in inputs[c];
      assert j in inputs'[v] && j in inputs'[c];
    }
    if ShareInput(inputs', v, c) {
      var j :| j in inputs'[v] && j in inputs'[c];
      assert j == i || (j in inputs[v] && j in inputs[c]);
    }
    if c in Spenders(spentBy, i) { assert i in inputs'[c]; }
    if v in Spenders(spentBy, i) { assert i in inputs'[v]; }
  }

  ghost function InputSet(ins: seq<TxInput>): set<TxInput> {
    set i | i in ins
  }

  lemma InputSetStep(ins: seq<TxInput>, k: nat)
    requires k < |ins| && forall m, n :: 0 <= m < n < |ins| ==> ins[m] != ins[n]
    ensures InputSet(ins[..k + 1]) == InputSet(ins[..k]) + {ins[k]} && ins[k] !in InputSet(ins[..k])
  {
    assert ins[..k + 1] == ins[..k] + [ins[k]];
  }

  /** Marks the inputs of `id` as used, one by one. */
  method MarkInputsAsUsed(inputs: Inputs, conf: Conflicts, spentBy: SpentBy, id: Id, ins: seq<TxInput>)
    returns (conf': Conflicts, spentBy': SpentBy)
    requires SpentExact(inputs, spentBy) && ConflictsExact(inputs, conf) && id !in inputs
    requires forall k, l :: 0 <= k < l < |ins| ==> ins[k] != ins[l]
    ensures SpentExact(inputs[id := InputSet(ins)], spentBy')
    ensures ConflictsExact(inputs[id := InputSet(ins)], conf') && conf'.Keys == inputs.Keys + {id}
  {
    conf', spentBy' := conf[id := {}], spentBy;
    NoInputsYet(inputs, conf, spentBy, id);
    assert InputSet(ins[..0]) == {};
    var k := 0;
    while k < |ins|
      invariant 0 <= k <= |ins|
      invariant SpentExact(inputs[id := InputSet(ins[..k])], spentBy')
      invariant ConflictsExact(inputs[id := InputSet(ins[..k])], conf')
    {
      ghost var now := inputs[id := InputSet(ins[..k])];
      InputSetStep(ins, k);
      MarkInputStep(now, conf', spentBy', id, ins[k]);
      assert now[id := now[id] + {ins[k]}] == inputs[id := InputSet(ins[..k + 1])];
      conf' := WithConflict(conf', id, Spenders(spentBy', ins[k]));
      spentBy' := spentBy'[ins[k] := Spenders(spentBy', ins[k]) + {id}];
      k := k + 1;
    }
    assert ins[..k] == ins;
  }

  lemma NoInputsYet(inputs: Inputs, conf: Conflicts, spentBy: SpentBy, id: Id)
    requires SpentExact(inputs, spentBy) && ConflictsExact(inputs, conf) && id !in inputs
    ensures SpentExact(inputs[id := {}], spentBy) && ConflictsExact(inputs[id := {}], conf[id := {}])
  {
    var inputs', conf' := inputs[id := {}], conf[id := {}];
    forall v, c | v in conf' ensures c in conf'[v] <==> c in inputs' && c != v && ShareInput(inputs', v, c) {
      if v in inputs && c in inputs {
        assert ShareInput(inputs', v, c) <==> ShareInput(inputs, v, c);
      }
    }
  }

  // ----- inheriting -----

  method UnionOf(vb: VoidedBy, list: seq<Id>) returns (u: set<Id>)
    requires Elements(list) <= vb.Keys
    ensures IsUnion(vb, Elements(list), u)
  {
    u := {};
    for i := 0 to |list|
      invariant forall g :: g in u ==> exists p :: p in Elements(list) && g in vb[p]
      invariant forall k :: 0 <= k < i ==> vb[list[k]] <= u
    {
      assert list[i] in Elements(list);
      u := u + vb[list[i]];
    }
  }

  /** The stored weight of every transaction voiding the newcomer grows by its work. */
  method AddWork(acc: map<Id, nat>, hashes: set<Id>, w: nat) returns (acc': map<Id, nat>)
    requires hashes <= acc.Keys
    ensures acc'.Keys == acc.Keys
    ensures forall x :: x in acc ==> acc'[x] == acc[x] + if x in hashes then w else 0
  {
    acc' := acc;
    var rest := hashes;
    while rest != {}
      invariant rest <= hashes && acc'.Keys == acc.Keys
      invariant forall x :: x in acc ==> acc'[x] == acc[x] + if x in hashes && x !in rest then w else 0
      decreases rest
    {
      var h :| h in rest;
      rest := rest - {h};
      acc' := acc'[h := acc'[h] + w];
    }
  }

  /** A new vertex adds its work to exactly those it comes after. */
  lemma WeightsAfterArrival(d: Dag, work: map<Id, nat>, id: Id, deps: set<Id>, ts: nat, w: nat, t: Id)
    requires Acceptable(d, id, deps, ts) && work.Keys == d.deps.Keys && Extended(d, id, deps, ts).Valid()
    ensures var e, work' := Extended(d, id, deps, ts), work[id := w];
            && (t in d.deps ==> Weights(e, work')[t] == Weights(d, work)[t] + if e.Reaches(t, id) then w else 0)
            && Weights(e, work')[id] == w
  {
    var e, work' := Extended(d, id, deps, ts), work[id := w];
    if t in d.deps {
      var was, now := d.Desc(t), e.Desc(t);
      forall x | x in e.deps ensures x in now <==> x in was || (x == id && e.Reaches(t, id)) {
        ExtendedReaches(d, id, deps, ts, t, x);
      }
      assert now == if e.Reaches(t, id) then was + {id} else was;
      WorkOfSame(work, work', was);
      WorkOfAdd(work', was, id);
    }
    forall x | x in e.deps ensures x in e.Desc(id) <==> x == id {
      ExtendedReaches(d, id, deps, ts, id, x);
    }
    assert e.Desc(id) == {id} && {} + {id} == {id};
    WorkOfAdd(work', {}, id);
  }
}
