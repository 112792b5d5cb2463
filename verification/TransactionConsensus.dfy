/** Consensus over transactions: which side of a conflict executes, and what an arrival changes. */
module TransactionConsensus {
  import opened Wrappers
  import opened Graph
  import opened Traversal
  import opened Ledger
  import opened Voidance
  import opened Confirmation

  type Conflicts = map<Id, set<Id>>

  ghost predicate Symmetric(conf: Conflicts) {
    forall v, c {:trigger c in conf[v]} :: v in conf && c in conf[v] ==> c in conf && c != v && v in conf[c]
  }

  /** Of two transactions in conflict at least one voids itself. */
  ghost predicate PairVoided(conf: Conflicts, vb: VoidedBy) {
    conf.Keys == vb.Keys &&
    forall v, c {:trigger c in conf[v]} :: v in conf && c in conf[v] ==> c in vb && (v in vb[v] || c in vb[c])
  }

  /** Every voided transaction with conflicts carries its own hash; `late` is excused. */
  ghost predicate VoidedCarryOwn(conf: Conflicts, vb: VoidedBy, late: set<Id>) {
    conf.Keys == vb.Keys &&
    forall v :: v in vb && vb[v] != {} && conf[v] != {} ==> v in vb[v] || v in late
  }

  /** Only blocks and transactions with conflicts void themselves. */
  ghost predicate SelfVoidedHaveCause(blocks: set<Id>, conf: Conflicts, vb: VoidedBy) {
    conf.Keys == vb.Keys &&
    forall v :: v in vb && v in vb[v] ==> v in blocks || conf[v] != {}
  }

  /** Stored weights never exceed the true ones and are exact for transactions voided in a conflict. */
  ghost predicate WeightsKept(weights: map<Id, nat>, conf: Conflicts, vb: VoidedBy, acc: map<Id, nat>) {
    && weights.Keys == conf.Keys == vb.Keys == acc.Keys
    && (forall v :: v in acc ==> acc[v] <= weights[v])
    && (forall v :: v in acc && v in vb[v] && conf[v] != {} ==> acc[v] == weights[v])
  }

  /** What consensus keeps of the voidance of transactions. */
  ghost predicate VoidanceKept(d: Dag, blocks: set<Id>, conf: Conflicts, vb: VoidedBy, late: set<Id>) {
    && d.Valid() && conf.Keys == vb.Keys == d.deps.Keys
    && Symmetric(conf) && Exact(d, vb)
    && PairVoided(conf, vb) && VoidedCarryOwn(conf, vb, late) && SelfVoidedHaveCause(blocks, conf, vb)
  }

  /** The promise of consensus: transactions in conflict are never both executed. */
  lemma NeverBothExecuted(d: Dag, blocks: set<Id>, conf: Conflicts, vb: VoidedBy, late: set<Id>, v: Id, c: Id)
    requires VoidanceKept(d, blocks, conf, vb, late) && v in conf && c in conf[v]
    ensures c in vb && !(vb[v] == {} && vb[c] == {})
  {
  }

  // ----- voiding a set of transactions -----

  /** All that voids itself when the transactions `s` are marked as voided one by one. */
  ghost function Marked(d: Dag, conf: Conflicts, vb: VoidedBy, s: set<Id>): set<Id>
    requires d.Valid() && conf.Keys == vb.Keys == d.deps.Keys
  {
    set x | x in vb && conf[x] != {} && exists c :: c in s && c in vb && c !in vb[c] && d.Reaches(c, x)
  }

  /** `vb'` is exact and its self-voided vertices are those of `vb` with `more`. */
  ghost predicate SelfGrown(d: Dag, vb: VoidedBy, vb': VoidedBy, more: set<Id>)
    requires d.Valid()
  {
    && vb.Keys == vb'.Keys && Exact(d, vb')
    && forall x :: x in vb ==> (x in vb'[x] <==> x in vb[x] || x in more)
  }

  lemma MarkedAlready(d: Dag, conf: Conflicts, vb: VoidedBy, vb': VoidedBy, s: set<Id>, c: Id)
    requires d.Valid() && conf.Keys == vb.Keys == d.deps.Keys && c in vb && conf[c] != {}
    requires SelfGrown(d, vb, vb', Marked(d, conf, vb, s)) && c in vb'[c]
    ensures Marked(d, conf, vb, s + {c}) == Marked(d, conf, vb, s)
  {
    forall x | x in Marked(d, conf, vb, s + {c}) ensures x in Marked(d, conf, vb, s) {
      var e :| e in s + {c} && e in vb && e !in vb[e] && d.Reaches(e, x);
      if e == c {
        var f :| f in s && f in vb && f !in vb[f] && d.Reaches(f, c);
        ReachesTransitive(d, f, c, x);
      }
    }
  }

  lemma MarkedNext(d: Dag, conf: Conflicts, vb: VoidedBy, vb1: VoidedBy, vb2: VoidedBy, s: set<Id>, c: Id)
    requires d.Valid() && conf.Keys == vb.Keys == vb1.Keys == d.deps.Keys && c in vb && conf[c] != {}
    requires SelfGrown(d, vb, vb1, Marked(d, conf, vb, s)) && c !in vb1[c]
    requires Pushed(d, vb1, vb2, d.Desc(c), c, MustVoid(d, conf, vb1, c, c))
    ensures SelfGrown(d, vb, vb2, Marked(d, conf, vb, s + {c}))
  {
    ExactAfterPush(d, vb1, vb2, c, MustVoid(d, conf, vb1, c, c));
    forall x | x in vb ensures x in vb2[x] <==> x in vb[x] || x in Marked(d, conf, vb, s + {c}) {
      if x in Marked(d, conf, vb, s) {
        assert x in Marked(d, conf, vb, s + {c});
      }
      if x in d.Desc(c) && conf[x] != {} {
        assert d.Reaches(c, x) && c in s + {c};
      }
    }
  }

  /** The executed transactions with conflicts that marking `s` voids. */
  ghost function Fallen(d: Dag, conf: Conflicts, vb: VoidedBy, s: set<Id>): set<Id>
    requires d.Valid() && conf.Keys == vb.Keys == d.deps.Keys
  {
    set x | x in Marked(d, conf, vb, s) && vb[x] == {}
  }

  /** `checks` asks for the conflicts of what fell; for members of `s` themselves that depends on the order. */
  ghost predicate AsksFor(d: Dag, conf: Conflicts, vb: VoidedBy, s: set<Id>, checks: set<Id>)
    requires d.Valid() && conf.Keys == vb.Keys == d.deps.Keys
  {
    ConflictsOf(conf, Fallen(d, conf, vb, s) - s) <= checks <= ConflictsOf(conf, Fallen(d, conf, vb, s))
  }

  lemma FallenStep(d: Dag, conf: Conflicts, vb: VoidedBy, vb1: VoidedBy, s: set<Id>, c: Id)
    requires d.Valid() && conf.Keys == vb.Keys == vb1.Keys == d.deps.Keys && c in vb && conf[c] != {} && Exact(d, vb)
    requires SelfGrown(d, vb, vb1, Marked(d, conf, vb, s))
    ensures var more := if c in vb1[c] then {} else Demoted(d, conf, vb1, c);
            && Fallen(d, conf, vb, s) + more <= Fallen(d, conf, vb, s + {c})
            && Fallen(d, conf, vb, s + {c}) - (s + {c}) <= (Fallen(d, conf, vb, s) - s) + more
  {
    if c in vb1[c] {
      if c in vb[c] {
        forall x | x in Fallen(d, conf, vb, s + {c}) ensures x in Fallen(d, conf, vb, s) {
        }
      } else {
        MarkedAlready(d, conf, vb, vb1, s, c);
      }
    } else {
      var more := Demoted(d, conf, vb1, c);
      forall x | x in more ensures x in Fallen(d, conf, vb, s + {c}) {
        StillExecuted(d, conf, vb, vb1, s, x);
        assert c in s + {c} && c !in vb[c] && d.Reaches(c, x);
      }
      forall x | x in Fallen(d, conf, vb, s + {c}) && x !in s + {c} && x !in Fallen(d, conf, vb, s) ensures x in more {
        var e :| e in s + {c} && e in vb && e !in vb[e] && d.Reaches(e, x);
        if h :| h in vb1[x] {
          StillFalls(d, conf, vb, vb1, s, x, h);
        }
      }
    }
  }

  lemma StillExecuted(d: Dag, conf: Conflicts, vb: VoidedBy, vb1: VoidedBy, s: set<Id>, x: Id)
    requires d.Valid() && conf.Keys == vb.Keys == d.deps.Keys && Exact(d, vb) && x in vb
    requires SelfGrown(d, vb, vb1, Marked(d, conf, vb, s))
    ensures vb[x] <= vb1[x]
  {
    forall g | g in vb[x] ensures g in vb1[x] {
      assert g in vb1[g] && d.Reaches(g, x);
    }
  }

  lemma StillFalls(d: Dag, conf: Conflicts, vb: VoidedBy, vb1: VoidedBy, s: set<Id>, x: Id, h: Id)
    requires d.Valid() && conf.Keys == vb.Keys == vb1.Keys == d.deps.Keys && Exact(d, vb)
    requires SelfGrown(d, vb, vb1, Marked(d, conf, vb, s)) && x in vb && conf[x] != {} && vb[x] == {} && h in vb1[x]
    ensures x in Fallen(d, conf, vb, s)
  {
    assert h in vb1 && h in vb1[h] && d.Reaches(h, x);
    assert h !in vb[h];
    var c :| c in s && c in vb && c !in vb[c] && d.Reaches(c, h);
    ReachesTransitive(d, c, h, x);
  }

  lemma FallenKnown(d: Dag, conf: Conflicts, vb: VoidedBy, vb1: VoidedBy, s: set<Id>, c: Id)
    requires d.Valid() && conf.Keys == vb.Keys == vb1.Keys == d.deps.Keys
    ensures Fallen(d, conf, vb, s) <= conf.Keys && Fallen(d, conf, vb, s + {c}) <= conf.Keys && Demoted(d, conf, vb1, c) <= conf.Keys
  {
  }

  lemma AsksForNothing(d: Dag, conf: Conflicts, vb: VoidedBy)
    requires d.Valid() && conf.Keys == vb.Keys == d.deps.Keys
    ensures AsksFor(d, conf, vb, {}, {})
  {
    assert Fallen(d, conf, vb, {}) == {};
  }

  lemma AsksForMore(d: Dag, conf: Conflicts, vb: VoidedBy, vb1: VoidedBy, s: set<Id>, c: Id, checks: set<Id>, more: set<Id>)
    requires d.Valid() && conf.Keys == vb.Keys == vb1.Keys == d.deps.Keys && c in vb && conf[c] != {} && Exact(d, vb)
    requires SelfGrown(d, vb, vb1, Marked(d, conf, vb, s)) && AsksFor(d, conf, vb, s, checks)
    requires more == if c in vb1[c] then {} else ConflictsOf(conf, Demoted(d, conf, vb1, c))
    ensures AsksFor(d, conf, vb, s + {c}, checks + more)
  {
    hide Fallen, Marked, SelfGrown, Exact, Demoted, ConflictsOf, Dag.Valid;
    FallenStep(d, conf, vb, vb1, s, c);
    var gone := if c in vb1[c] then {} else Demoted(d, conf, vb1, c);
    FallenKnown(d, conf, vb, vb1, s, c);
    var was, now := Fallen(d, conf, vb, s), Fallen(d, conf, vb, s + {c});
    NoConflictsOf(conf);
    ConflictsOfUnion(conf, was, gone);
    ConflictsOfUnion(conf, was - s, gone);
    ConflictsOfMore(conf, was + gone, now);
    ConflictsOfMore(conf, now - (s + {c}), (was - s) + gone);
  }

  lemma NoConflictsOf(conf: Conflicts)
    ensures ConflictsOf(conf, {}) == {}
  {
  }

  lemma ConflictsOfMore(conf: Conflicts, s: set<Id>, t: set<Id>)
    requires s <= t <= conf.Keys
    ensures ConflictsOf(conf, s) <= ConflictsOf(conf, t)
  {
  }

  /** `acc'` is `acc` with exact weights for the members of `s` that have conflicts. */
  ghost predicate Reweighed(weights: map<Id, nat>, conf: Conflicts, acc: map<Id, nat>, acc': map<Id, nat>, s: set<Id>)
  {
    && weights.Keys == conf.Keys == acc.Keys == acc'.Keys
    && forall x :: x in acc ==> acc'[x] == if x in s && conf[x] != {} then weights[x] else acc[x]
  }

  lemma ReweighedNext(weights: map<Id, nat>, conf: Conflicts, acc: map<Id, nat>, acc': map<Id, nat>, s: set<Id>, v: Id)
    requires v in weights && Reweighed(weights, conf, acc, acc', s)
    ensures Reweighed(weights, conf, acc, if conf[v] != {} then acc'[v := weights[v]] else acc', s + {v})
  {
  }

  lemma ReweighedNone(weights: map<Id, nat>, conf: Conflicts, acc: map<Id, nat>, order: seq<Id>)
    requires weights.Keys == conf.Keys == acc.Keys
    ensures Reweighed(weights, conf, acc, acc, Elements(order[..0]))
  {
  }

  lemma WeightsKeys(d: Dag, work: map<Id, nat>)
    requires d.Valid() && work.Keys == d.deps.Keys
    ensures Weights(d, work).Keys == d.deps.Keys
  {
  }

  /** Brings the weight of `c` and of every descendant with conflicts up to date. */
  method Reweigh(d: Dag, f: Dag, work: map<Id, nat>, conf: Conflicts, acc: map<Id, nat>, c: Id) returns (acc': map<Id, nat>)
    requires d.Valid() && f.Valid() && work.Keys == conf.Keys == acc.Keys == d.deps.Keys == f.deps.Keys && c in acc
    ensures Reweighed(Weights(f, work), conf, acc, acc', d.Desc(c))
  {
    hide WorkOf, Dag.Reaches, Weights, Reweighed, Elements, InOrder, Dag.Valid;
    ghost var weights := Weights(f, work);
    WeightsKeys(f, work);
    var order := WalkRight(d, c);
    acc' := acc;
    ReweighedNone(weights, conf, acc, order);
    var i := 0;
    while i < |order|
      invariant 0 <= i <= |order|
      invariant Reweighed(weights, conf, acc, acc', Elements(order[..i]))
    {
      var v := order[i];
      PrefixStep(ForwardKey(d), order, i);
      var sum := AccumulatedWeight(f, work, v, None);
      ReweighedNext(weights, conf, acc, acc', Elements(order[..i]), v);
      acc' := if conf[v] != {} then acc'[v := sum] else acc';
      i := i + 1;
    }
    assert order[..i] == order;
  }

  lemma WeightsAfterMark(d: Dag, weights: map<Id, nat>, conf: Conflicts, vb: VoidedBy, vb': VoidedBy,
                         acc: map<Id, nat>, acc': map<Id, nat>, c: Id)
    requires d.Valid() && conf.Keys == vb.Keys == d.deps.Keys && c in vb
    requires WeightsKept(weights, conf, vb, acc) && Reweighed(weights, conf, acc, acc', d.Desc(c))
    requires Pushed(d, vb, vb', d.Desc(c), c, MustVoid(d, conf, vb, c, c))
    ensures WeightsKept(weights, conf, vb', acc')
  {
  }

  /** Voids `c` with its own hash, unless it already carries it. */
  method MarkAsVoided(d: Dag, f: Dag, work: map<Id, nat>, conf: Conflicts, vb: VoidedBy, acc: map<Id, nat>, c: Id)
    returns (vb': VoidedBy, acc': map<Id, nat>, checks: set<Id>)
    requires d.Valid() && f.Valid() && work.Keys == conf.Keys == vb.Keys == acc.Keys == d.deps.Keys == f.deps.Keys
    requires c in vb && conf[c] != {} && Exact(d, vb) && WeightsKept(Weights(f, work), conf, vb, acc)
    ensures vb'.Keys == vb.Keys && WeightsKept(Weights(f, work), conf, vb', acc')
    ensures c in vb[c] ==> vb' == vb
    ensures c !in vb[c] ==> Pushed(d, vb, vb', d.Desc(c), c, MustVoid(d, conf, vb, c, c))
    ensures checks == if c in vb[c] then {} else ConflictsOf(conf, Demoted(d, conf, vb, c))
  {
    hide Exact, Dag.Reaches, Dag.Valid, Weights, WeightsKept, Reweighed, Pushed, MustVoid, Demoted, ConflictsOf, OwnFirst, Dag.Desc;
    vb', acc', checks := vb, acc, {};
    if c in vb[c] {
      return;
    }
    PushIsFree(d, vb, c);
    var ok;
    vb', checks, ok := AddVoidedBy(d, conf, vb, c, c);
    acc' := Reweigh(d, f, work, conf, acc, c);
    WeightsAfterMark(d, Weights(f, work), conf, vb, vb', acc, acc', c);
  }

  lemma PushIsFree(d: Dag, vb: VoidedBy, c: Id)
    requires d.Valid() && Exact(d, vb) && c in vb && c !in vb[c]
    ensures OwnFirst(vb) && forall x :: x in d.Desc(c) ==> c !in vb[x]
  {
  }

  lemma MarkedStep(d: Dag, conf: Conflicts, vb: VoidedBy, vb1: VoidedBy, vb2: VoidedBy, s: set<Id>, c: Id)
    requires d.Valid() && conf.Keys == vb.Keys == vb1.Keys == d.deps.Keys && c in vb && conf[c] != {}
    requires SelfGrown(d, vb, vb1, Marked(d, conf, vb, s))
    requires c in vb1[c] ==> vb2 == vb1
    requires c !in vb1[c] ==> Pushed(d, vb1, vb2, d.Desc(c), c, MustVoid(d, conf, vb1, c, c))
    ensures SelfGrown(d, vb, vb2, Marked(d, conf, vb, s + {c}))
  {
    if c in vb1[c] {
      MarkedAlready(d, conf, vb, vb1, s, c);
    } else {
      MarkedNext(d, conf, vb, vb1, vb2, s, c);
    }
  }

  lemma NothingMarked(d: Dag, conf: Conflicts, vb: VoidedBy)
    requires d.Valid() && conf.Keys == vb.Keys == d.deps.Keys && Exact(d, vb)
    ensures SelfGrown(d, vb, vb, Marked(d, conf, vb, {}))
  {
  }

  /** Voids the transactions of `list` in turn. */
  method MarkAllAsVoided(d: Dag, f: Dag, work: map<Id, nat>, conf: Conflicts, vb: VoidedBy, acc: map<Id, nat>, list: seq<Id>)
    returns (vb': VoidedBy, acc': map<Id, nat>, checks: set<Id>)
    requires d.Valid() && f.Valid() && work.Keys == conf.Keys == vb.Keys == acc.Keys == d.deps.Keys == f.deps.Keys
    requires Exact(d, vb) && WeightsKept(Weights(f, work), conf, vb, acc)
    requires forall c :: c in Elements(list) ==> c in conf && conf[c] != {}
    ensures SelfGrown(d, vb, vb', Marked(d, conf, vb, Elements(list)))
    ensures WeightsKept(Weights(f, work), conf, vb', acc') && AsksFor(d, conf, vb, Elements(list), checks)
  {
    hide Dag.Reaches, WorkOf, Weights, Marked, MustVoid, Pushed, AsksFor, Demoted, ConflictsOf, Exact, Dag.Valid;
    vb', acc', checks := vb, acc, {};
    ghost var done: set<Id> := {};
    NothingMarked(d, conf, vb);
    AsksForNothing(d, conf, vb);
    var i := 0;
    while i < |list|
      invariant 0 <= i <= |list| && done == Elements(list[..i])
      invariant SelfGrown(d, vb, vb', Marked(d, conf, vb, done)) && AsksFor(d, conf, vb, done, checks)
      invariant WeightsKept(Weights(f, work), conf, vb', acc')
    {
      assert list[i] in Elements(list);
      ghost var vb1 := vb';
      var more;
      vb', acc', more := MarkAsVoided(d, f, work, conf, vb', acc', list[i]);
      AsksForMore(d, conf, vb, vb1, done, list[i], checks, more);
      MarkedStep(d, conf, vb, vb1, vb', done, list[i]);
      assert list[..i + 1] == list[..i] + [list[i]];
      assert done + {list[i]} == Elements(list[..i + 1]);
      checks, done, i := checks + more, Elements(list[..i + 1]), i + 1;
    }
    assert list[..i] == list;
  }

  // ----- resolving a conflict -----

  /** A rival that is executed, or voided by itself only, outweighs `t`. */
  ghost predicate Loses(weights: map<Id, nat>, conf: Conflicts, vb: VoidedBy, t: Id)
    requires weights.Keys == conf.Keys == vb.Keys && t in conf
  {
    exists c :: c in conf[t] && c in vb && (vb[c] == {} || vb[c] == {c}) && weights[c] > weights[t]
  }

  /** An executed rival weighs as much as `t`. */
  ghost predicate Ties(weights: map<Id, nat>, conf: Conflicts, vb: VoidedBy, t: Id)
    requires weights.Keys == conf.Keys == vb.Keys && t in conf
  {
    exists c :: c in conf[t] && c in vb && vb[c] == {} && weights[c] == weights[t]
  }

  datatype Outcome = Lost | Tied | Won

  /** Compares `t` with executed rivals, refreshing their stored weights only as far as needed. */
  method ContestExecuted(d: Dag, work: map<Id, nat>, acc: map<Id, nat>, t: Id, rivals: seq<Id>, ghost weights: map<Id, nat>)
    returns (acc': map<Id, nat>, outcome: Outcome)
    requires d.Valid() && work.Keys == acc.Keys == d.deps.Keys && weights == Weights(d, work)
    requires weights.Keys == acc.Keys && t in acc && t !in rivals && acc[t] == weights[t]
    requires forall c :: c in rivals ==> c in acc && acc[c] <= weights[c]
    ensures acc'.Keys == acc.Keys
    ensures forall x :: x in acc ==> acc'[x] == acc[x] || (x in rivals && acc'[x] <= weights[x])
    ensures outcome.Lost? <==> exists k :: 0 <= k < |rivals| && weights[rivals[k]] > weights[t]
    ensures outcome.Tied? <==> !outcome.Lost? && exists k :: 0 <= k < |rivals| && weights[rivals[k]] == weights[t]
  {
    hide Dag.Reaches, WorkOf, Weights;
    acc', outcome := acc, Won;
    var i := 0;
    while i < |rivals|
      invariant 0 <= i <= |rivals| && !outcome.Lost? && acc'.Keys == acc.Keys
      invariant forall x :: x in acc ==> acc'[x] == acc[x] || (x in rivals && acc'[x] <= weights[x])
      invariant forall k :: 0 <= k < i ==> weights[rivals[k]] <= weights[t]
      invariant outcome.Tied? <==> exists k :: 0 <= k < i && weights[rivals[k]] == weights[t]
    {
      var c := rivals[i];
      if acc'[c] <= acc'[t] {
        var sum := AccumulatedWeight(d, work, c, Some(acc'[t]));
        acc' := acc'[c := sum];
      }
      if acc'[c] > acc'[t] {
        outcome := Lost;
        return;
      }
      if acc'[c] == acc'[t] {
        outcome := Tied;
      }
      i := i + 1;
    }
  }

  method Outweighed(acc: map<Id, nat>, t: Id, rivals: seq<Id>) returns (lost: bool)
    requires t in acc && forall c :: c in rivals ==> c in acc
    ensures lost <==> exists k :: 0 <= k < |rivals| && acc[rivals[k]] > acc[t]
  {
    for i := 0 to |rivals|
      invariant forall k :: 0 <= k < i ==> acc[rivals[k]] <= acc[t]
    {
      if acc[rivals[i]] > acc[t] {
        return true;
      }
    }
    return false;
  }

  lemma RivalsKnown(conf: Conflicts, t: Id)
    requires Symmetric(conf) && t in conf
    ensures forall c :: c in conf[t] ==> c in conf
  {
  }

  /** Whether `t`, voided only by itself, loses, ties or wins against its rivals. */
  method Contest(d: Dag, work: map<Id, nat>, conf: Conflicts, vb: VoidedBy, acc: map<Id, nat>, t: Id)
    returns (acc': map<Id, nat>, outcome: Outcome)
    requires d.Valid() && work.Keys == conf.Keys == vb.Keys == acc.Keys == d.deps.Keys
    requires t in vb && t in vb[t] && conf[t] != {} && Symmetric(conf) && WeightsKept(Weights(d, work), conf, vb, acc)
    ensures WeightsKept(Weights(d, work), conf, vb, acc')
    ensures outcome.Lost? <==> Loses(Weights(d, work), conf, vb, t)
    ensures outcome.Tied? <==> !Loses(Weights(d, work), conf, vb, t) && Ties(Weights(d, work), conf, vb, t)
  {
    hide Weights, Symmetric, Loses, Ties, WeightsKept, Elements, Dag.Valid;
    ghost var weights := Weights(d, work);
    WeightsKeys(d, work);
    RivalsKnown(conf, t);
    var voided := ListOf(set c | c in conf[t] && vb[c] == {c});
    var executed := ListOf(set c | c in conf[t] && vb[c] == {});
    ContestDecides(weights, conf, vb, acc, t, voided, executed);
    var lost := Outweighed(acc, t, voided);
    if lost {
      acc', outcome := acc, Lost;
    } else {
      acc', outcome := ContestExecuted(d, work, acc, t, executed, weights);
      WeightsRefreshed(weights, conf, vb, acc, acc', executed);
    }
  }

  lemma WeightsRefreshed(weights: map<Id, nat>, conf: Conflicts, vb: VoidedBy, acc: map<Id, nat>, acc': map<Id, nat>,
                         executed: seq<Id>)
    requires WeightsKept(weights, conf, vb, acc) && acc'.Keys == acc.Keys
    requires forall c :: c in Elements(executed) ==> c in vb && vb[c] == {}
    requires forall x :: x in acc ==> acc'[x] == acc[x] || (x in executed && acc'[x] <= weights[x])
    ensures WeightsKept(weights, conf, vb, acc')
  {
    assert forall c :: c in executed ==> c in Elements(executed);
  }

  lemma ContestDecides(weights: map<Id, nat>, conf: Conflicts, vb: VoidedBy, acc: map<Id, nat>, t: Id,
                       voided: seq<Id>, executed: seq<Id>)
    requires WeightsKept(weights, conf, vb, acc) && Symmetric(conf) && t in conf && t in vb[t] && conf[t] != {}
    requires Elements(voided) == set c | c in conf[t] && vb[c] == {c}
    requires Elements(executed) == set c | c in conf[t] && vb[c] == {}
    ensures forall c :: c in voided || c in executed ==> c in acc && c != t
    ensures forall c :: c in executed ==> acc[c] <= weights[c]
    ensures forall c :: c in Elements(executed) ==> c in vb && vb[c] == {}
    ensures acc[t] == weights[t] && weights.Keys == acc.Keys
    ensures Loses(weights, conf, vb, t) <==>
            (exists k :: 0 <= k < |voided| && acc[voided[k]] > acc[t]) ||
            (exists k :: 0 <= k < |executed| && weights[executed[k]] > weights[t])
    ensures Ties(weights, conf, vb, t) <==> exists k :: 0 <= k < |executed| && weights[executed[k]] == weights[t]
  {
    assert forall k :: 0 <= k < |voided| ==> voided[k] in Elements(voided);
    assert forall k :: 0 <= k < |executed| ==> executed[k] in Elements(executed);
    if Loses(weights, conf, vb, t) {
      var c :| c in conf[t] && c in vb && (vb[c] == {} || vb[c] == {c}) && weights[c] > weights[t];
      if vb[c] == {} {
        assert c in Elements(executed);
        var k :| 0 <= k < |executed| && executed[k] == c;
      } else {
        assert c in Elements(voided);
        var k :| 0 <= k < |voided| && voided[k] == c;
      }
    }
    if k :| 0 <= k < |voided| && acc[voided[k]] > acc[t] {
      assert voided[k] in Elements(voided);
    }
    if k :| 0 <= k < |executed| && weights[executed[k]] >= weights[t] {
      assert executed[k] in Elements(executed);
    }
    if Ties(weights, conf, vb, t) {
      var c :| c in conf[t] && c in vb && vb[c] == {} && weights[c] == weights[t];
      assert c in Elements(executed);
      var k :| 0 <= k < |executed| && executed[k] == c;
    }
  }

  lemma AncestorOutweighs(d: Dag, work: map<Id, nat>, c: Id, t: Id)
    requires d.Valid() && work.Keys == d.deps.Keys && t in work && c != t && d.Reaches(c, t)
    requires forall x :: x in work ==> work[x] > 0
    ensures c in work && Weights(d, work)[c] > Weights(d, work)[t]
  {
    ReachesTimestamp(d, c, t);
    var right := d.Desc(t);
    forall x | x in right ensures x in d.Desc(c) {
      ReachesTransitive(d, c, t, x);
    }
    if c in right {
      ReachesTimestamp(d, t, c);
    }
    WorkOfAdd(work, right, c);
    WorkOfSubset(work, right + {c}, d.Desc(c));
  }

  /** A transaction never beats a rival in its own past: that rival weighs more. */
  lemma NoRivalIsAncestor(d: Dag, f: Dag, blocks: set<Id>, work: map<Id, nat>, conf: Conflicts, vb: VoidedBy, t: Id, c: Id)
    requires BareOf(d, f, blocks) && work.Keys == conf.Keys == vb.Keys == d.deps.Keys == f.deps.Keys && Symmetric(conf) && Exact(d, vb)
    requires forall x :: x in work ==> work[x] > 0
    requires t in vb && vb[t] == {t} && !Loses(Weights(f, work), conf, vb, t) && c in conf[t]
    ensures !d.Reaches(c, t)
  {
    if d.Reaches(c, t) {
      BareReaches(d, f, blocks, c, t);
      AncestorOutweighs(f, work, c, t);
      hide Weights, BareOf;
      AncestorCarriesLess(d, vb, t, c);
    }
  }

  lemma AncestorCarriesLess(d: Dag, vb: VoidedBy, t: Id, c: Id)
    requires d.Valid() && Exact(d, vb) && t in vb && c in vb && c != t && d.Reaches(c, t)
    ensures vb[c] <= vb[t] - {t}
  {
    forall h | h in vb[c] ensures h in vb[t] && h != t {
      ReachesTransitive(d, h, c, t);
      ReachesTimestamp(d, h, c);
      ReachesTimestamp(d, c, t);
    }
  }

  /** Marking transactions as voided keeps everything consensus keeps. */
  lemma KeptAfterMarking(d: Dag, blocks: set<Id>, conf: Conflicts, vb: VoidedBy, vb': VoidedBy, late: set<Id>, s: set<Id>)
    requires VoidanceKept(d, blocks, conf, vb, late)
    requires SelfGrown(d, vb, vb', Marked(d, conf, vb, s))
    ensures VoidanceKept(d, blocks, conf, vb', late)
  {
    forall v | v in vb' && vb'[v] != {} && conf[v] != {} ensures v in vb'[v] || v in late {
      var h :| h in vb'[v];
      if h in vb[h] {
        assert h in vb[v];
      } else {
        assert h in Marked(d, conf, vb, s);
        var c :| c in s && c in vb && c !in vb[c] && d.Reaches(c, h);
        ReachesTransitive(d, c, h, v);
      }
    }
  }

  lemma StillOnlyItself(d: Dag, conf: Conflicts, vb: VoidedBy, vb': VoidedBy, s: set<Id>, t: Id)
    requires d.Valid() && conf.Keys == vb.Keys == d.deps.Keys && Exact(d, vb) && t in vb && vb[t] == {t}
    requires SelfGrown(d, vb, vb', Marked(d, conf, vb, s))
    requires forall c :: c in s ==> !d.Reaches(c, t)
    ensures vb'[t] == {t}
  {
    forall h | h in vb'[t] ensures h == t {
      if h in Marked(d, conf, vb, s) {
        var c :| c in s && c in vb && c !in vb[c] && d.Reaches(c, h);
        ReachesTransitive(d, c, h, t);
      } else {
        assert h in vb[t];
      }
    }
    assert t in vb[t];
  }

  /** A winner all of whose rivals void themselves can drop its own hash. */
  lemma KeptAfterWinning(d: Dag, blocks: set<Id>, conf: Conflicts, vb: VoidedBy, vb': VoidedBy, late: set<Id>, t: Id)
    requires VoidanceKept(d, blocks, conf, vb, late) && t in vb && vb[t] == {t}
    requires forall c :: c in conf[t] ==> c in vb[c]
    requires Cleared(vb, vb', d.Desc(t), t)
    ensures VoidanceKept(d, blocks, conf, vb', late) && vb'[t] == {}
    ensures forall x :: x in vb ==> (x in vb'[x] <==> x in vb[x] && x != t)
  {
    ExactAfterClear(d, vb, vb', t);
    forall v | v in vb' && vb'[v] != {} && conf[v] != {} ensures v in vb'[v] || v in late {
      var h :| h in vb'[v];
      assert h in vb[v];
    }
  }

  lemma WinnerIsClear(d: Dag, vb: VoidedBy, t: Id)
    requires d.Valid() && vb.Keys == d.deps.Keys && Exact(d, vb) && t in vb && t in vb[t]
    ensures ClearedToTheRight(d, vb, t, t)
  {
  }

  lemma WeightsAfterWinning(weights: map<Id, nat>, conf: Conflicts, vb: VoidedBy, vb': VoidedBy, acc: map<Id, nat>, t: Id)
    requires WeightsKept(weights, conf, vb, acc) && vb.Keys == vb'.Keys
    requires forall x :: x in vb && x in vb'[x] ==> x in vb[x]
    ensures WeightsKept(weights, conf, vb', acc)
  {
  }

  /** A transaction stays voided by itself alone only if a rival outweighs it or no rival is executed. */
  ghost predicate Resolved(weights: map<Id, nat>, conf: Conflicts, vb: VoidedBy, t: Id)
    requires weights.Keys == conf.Keys == vb.Keys && t in conf
  {
    vb[t] == {t} ==> Loses(weights, conf, vb, t) || forall c :: c in conf[t] ==> c in vb && c in vb[c]
  }

  /** What has no conflicts, blocks among it, neither starts nor stops to void itself. */
  ghost predicate LonersKept(conf: Conflicts, vb: VoidedBy, vb': VoidedBy) {
    && conf.Keys == vb.Keys == vb'.Keys
    && forall x :: x in vb && conf[x] == {} ==> (x in vb'[x] <==> x in vb[x])
  }

  lemma LonersKeptNow(conf: Conflicts, vb: VoidedBy)
    requires conf.Keys == vb.Keys
    ensures LonersKept(conf, vb, vb)
  {
  }

  lemma LonersKeptTwice(conf: Conflicts, vb: VoidedBy, vb1: VoidedBy, vb2: VoidedBy)
    requires LonersKept(conf, vb, vb1) && LonersKept(conf, vb1, vb2)
    ensures LonersKept(conf, vb, vb2)
  {
  }

  lemma ResolvedOtherwise(weights: map<Id, nat>, conf: Conflicts, vb: VoidedBy, t: Id)
    requires weights.Keys == conf.Keys == vb.Keys && t in conf && vb[t] != {t}
    ensures Resolved(weights, conf, vb, t)
  {
  }

  /** Checking `t` would void a confirmed transaction: `t` is up for a contest, no rival outweighs it
  and a rival is confirmed. */
  ghost predicate Overturns(f: Dag, blocks: set<Id>, weights: map<Id, nat>, conf: Conflicts, vb: VoidedBy, t: Id)
    requires f.Valid() && blocks <= f.deps.Keys && weights.Keys == conf.Keys == vb.Keys && t in conf
  {
    vb[t] == {t} && !Loses(weights, conf, vb, t) && exists c :: c in conf[t] && Confirmed(f, blocks, c)
  }

  /** Checking `t` would void a confirmed transaction. */
  ghost predicate OverturnsIn(full: Dag, blocks: set<Id>, work: map<Id, nat>, conf: Conflicts, vb: VoidedBy, t: Id) {
    && full.Valid() && blocks <= full.deps.Keys && work.Keys == full.deps.Keys == conf.Keys == vb.Keys && t in conf
    && Overturns(full, blocks, Weights(full, work), conf, vb, t)
  }

  ghost predicate ResolvedIn(full: Dag, work: map<Id, nat>, conf: Conflicts, vb: VoidedBy, t: Id) {
    full.Valid() && work.Keys == full.deps.Keys == conf.Keys == vb.Keys && t in conf && Resolved(Weights(full, work), conf, vb, t)
  }

  /** Some confirmed transaction has a rival of at least its weight. */
  ghost predicate Challenged(f: Dag, blocks: set<Id>, work: map<Id, nat>, conf: Conflicts) {
    && f.Valid() && blocks <= f.deps.Keys && work.Keys == f.deps.Keys == conf.Keys
    && exists t, c :: t in conf && c in conf && c in conf[t] && Confirmed(f, blocks, c) && Weights(f, work)[c] <= Weights(f, work)[t]
  }

  /** What checking the conflicts of `t` keeps, and what it needs. */
  ghost predicate Ready(d: Dag, f: Dag, blocks: set<Id>, work: map<Id, nat>, conf: Conflicts, vb: VoidedBy, acc: map<Id, nat>,
                        late: set<Id>)
  {
    && VoidanceKept(d, blocks, conf, vb, late) && Anchored(d, f, blocks, vb)
    && work.Keys == acc.Keys == vb.Keys && (forall x :: x in work ==> work[x] > 0)
    && (forall b :: b in blocks ==> conf[b] == {}) && WeightsKept(Weights(f, work), conf, vb, acc)
  }

  /** A confirmed rival is executed, so only a contender of at least its weight would overturn it. */
  lemma OverturnsChallenged(d: Dag, f: Dag, blocks: set<Id>, work: map<Id, nat>, conf: Conflicts, vb: VoidedBy, acc: map<Id, nat>,
                            late: set<Id>, t: Id)
    requires Ready(d, f, blocks, work, conf, vb, acc, late) && OverturnsIn(f, blocks, work, conf, vb, t)
    ensures Challenged(f, blocks, work, conf)
  {
    hide Weights, WeightsKept, Confirmed, Exact;
    ReadyParts(d, f, blocks, work, conf, vb, acc, late);
    var c :| c in conf[t] && Confirmed(f, blocks, c);
    assert c in conf && t in conf[c];
    assert c !in blocks && vb[c] == {};
  }

  /** `t` beat its rivals: each of them voids itself now, and so does every conflicting transaction after
  an executed one; `t` executes unless there was a tie; the conflicts of what fell, and what `t` freed,
  are to be checked. */
  ghost predicate Prevailed(d: Dag, conf: Conflicts, vb: VoidedBy, vb': VoidedBy, t: Id, tied: bool, checks: set<Id>)
    requires d.Valid() && conf.Keys == vb.Keys == vb'.Keys == d.deps.Keys && t in conf
  {
    && vb'[t] == (if tied then {t} else {})
    && (forall c :: c in conf[t] ==> c in vb' && c in vb'[c])
    && (forall x :: x in vb && x != t ==> (x in vb'[x] <==> x in vb[x] || x in Marked(d, conf, vb, conf[t])))
    && (exists asked :: AsksFor(d, conf, vb, conf[t], asked) && checks == asked + if tied then {} else Freed(d, vb', t))
  }

  /** `t` is voided by itself alone, has rivals, and none that is executed or voided by itself alone
  outweighs it. */
  ghost predicate Beats(weights: map<Id, nat>, conf: Conflicts, vb: VoidedBy, t: Id)
    requires weights.Keys == conf.Keys == vb.Keys && t in conf
  {
    vb[t] == {t} && conf[t] != {} && !Loses(weights, conf, vb, t)
  }

  /** What a check of `t` does to `vb`, and which checks it asks for. */
  ghost predicate Checked(d: Dag, f: Dag, work: map<Id, nat>, conf: Conflicts, vb: VoidedBy, vb': VoidedBy, t: Id, checks: set<Id>) {
    && d.Valid() && f.Valid() && work.Keys == conf.Keys == vb.Keys == vb'.Keys == d.deps.Keys == f.deps.Keys && t in conf && Exact(d, vb')
    && if Beats(Weights(f, work), conf, vb, t) then Prevailed(d, conf, vb, vb', t, Ties(Weights(f, work), conf, vb, t), checks)
       else vb' == vb && checks == {}
  }

  /** Lets `t` win over its rivals if it weighs enough.  A tie with an executed rival voids both.
  Nothing happens, and `ok` is false, when that would void a confirmed transaction. */
  method CheckConflicts(d: Dag, f: Dag, blocks: set<Id>, work: map<Id, nat>, conf: Conflicts, vb: VoidedBy, acc: map<Id, nat>,
                        ghost late: set<Id>, t: Id)
    returns (vb': VoidedBy, acc': map<Id, nat>, checks: set<Id>, ok: bool)
    requires Ready(d, f, blocks, work, conf, vb, acc, late) && t in vb
    ensures Ready(d, f, blocks, work, conf, vb', acc', late) && vb'.Keys == acc'.Keys == vb.Keys
    ensures ok <==> !OverturnsIn(f, blocks, work, conf, vb, t)
    ensures if ok then Checked(d, f, work, conf, vb, vb', t, checks) else vb' == vb && checks == {}
    ensures ok ==> ResolvedIn(f, work, conf, vb', t)
    ensures LonersKept(conf, vb, vb')
  {
    hide Ready, Prevailed, WeightsKept, Weights, Confirmed, Exact, Loses, Ties, Symmetric, VoidanceKept, Anchored, Dag.Valid, Elements;
    vb', acc', checks, ok := vb, acc, {}, true;
    ReadyParts(d, f, blocks, work, conf, vb, acc, late);
    LonersKeptNow(conf, vb);
    if vb[t] != {t} || conf[t] == {} {
      return;
    }
    var outcome;
    acc', outcome := Contest(f, work, conf, vb, acc, t);
    ReadyAgain(d, f, blocks, work, conf, vb, acc', late);
    if outcome.Lost? {
      return;
    }
    var rivals := ListOf(conf[t]);
    RivalsKnown(conf, t);
    var met := AnyMeetsBlock(f, blocks, rivals);
    if met {
      ok := false;
      return;
    }
    vb', acc', checks := Prevail(d, f, blocks, work, conf, vb, acc', late, t, rivals, outcome.Tied?);
    ReadyParts(d, f, blocks, work, conf, vb', acc', late);
  }

  lemma ReadyParts(d: Dag, f: Dag, blocks: set<Id>, work: map<Id, nat>, conf: Conflicts, vb: VoidedBy, acc: map<Id, nat>, late: set<Id>)
    requires Ready(d, f, blocks, work, conf, vb, acc, late)
    ensures VoidanceKept(d, blocks, conf, vb, late) && Anchored(d, f, blocks, vb) && Symmetric(conf) && Exact(d, vb)
    ensures d.Valid() && f.Valid() && blocks <= f.deps.Keys && WeightsKept(Weights(f, work), conf, vb, acc)
    ensures conf.Keys == vb.Keys == work.Keys == acc.Keys == d.deps.Keys == f.deps.Keys == Weights(f, work).Keys
    ensures (forall x :: x in work ==> work[x] > 0) && forall b :: b in blocks ==> conf[b] == {}
  {
    hide Confirmed;
  }

  lemma ReadyAgain(d: Dag, f: Dag, blocks: set<Id>, work: map<Id, nat>, conf: Conflicts, vb: VoidedBy, acc: map<Id, nat>, late: set<Id>)
    requires VoidanceKept(d, blocks, conf, vb, late) && Anchored(d, f, blocks, vb) && work.Keys == vb.Keys == f.deps.Keys && f.Valid()
    requires WeightsKept(Weights(f, work), conf, vb, acc) && forall x :: x in work ==> work[x] > 0
    requires blocks <= conf.Keys && forall b :: b in blocks ==> conf[b] == {}
    ensures Ready(d, f, blocks, work, conf, vb, acc, late) && acc.Keys == vb.Keys
  {
    hide Anchored, VoidanceKept;
  }

  /** `t` is not outweighed and no rival is confirmed: all rivals void themselves and, unless there is
  a tie, `t` executes. */
  method Prevail(d: Dag, f: Dag, ghost blocks: set<Id>, work: map<Id, nat>, conf: Conflicts, vb: VoidedBy, acc: map<Id, nat>,
                 ghost late: set<Id>, t: Id, rivals: seq<Id>, tied: bool)
    returns (vb': VoidedBy, acc': map<Id, nat>, checks: set<Id>)
    requires Ready(d, f, blocks, work, conf, vb, acc, late)
    requires t in vb && vb[t] == {t} && conf[t] != {} && !Loses(Weights(f, work), conf, vb, t) && Elements(rivals) == conf[t]
    requires forall c :: c in conf[t] ==> !Confirmed(f, blocks, c)
    ensures Ready(d, f, blocks, work, conf, vb', acc', late) && vb'.Keys == acc'.Keys == vb.Keys
    ensures Prevailed(d, conf, vb, vb', t, tied, checks)
    ensures Resolved(Weights(f, work), conf, vb', t) && LonersKept(conf, vb, vb')
  {
    hide Ready, AsksFor, Freed, WeightsKept, Weights, Confirmed, Exact, Loses, Symmetric, VoidanceKept, Anchored, Dag.Valid, Elements, Dag.Reaches;
    ReadyParts(d, f, blocks, work, conf, vb, acc, late);
    vb', acc', checks := VoidRivals(d, f, blocks, work, conf, vb, acc, late, t, rivals);
    ReadyParts(d, f, blocks, work, conf, vb', acc', late);
    assert AsksFor(d, conf, vb, conf[t], checks) && checks == checks + {};
    if !tied {
      RivalsKnown(conf, t);
      OtherThan(conf, t);
      var won, more := MarkAsWinner(d, f, blocks, conf, vb', late, t);
      WeightsAfterWinning(Weights(f, work), conf, vb', won, acc', t);
      vb', checks := won, checks + more;
      ReadyAgain(d, f, blocks, work, conf, vb', acc', late);
    }
  }

  lemma OtherThan(conf: Conflicts, t: Id)
    requires Symmetric(conf) && t in conf
    ensures t !in conf[t]
  {
  }

  lemma AnchoredParts(d: Dag, f: Dag, blocks: set<Id>, vb: VoidedBy)
    requires Anchored(d, f, blocks, vb)
    ensures BareOf(d, f, blocks) && f.Valid() && blocks <= f.deps.Keys && vb.Keys == f.deps.Keys == d.deps.Keys
  {
  }

  /** Marking unconfirmed transactions as voided reaches nothing confirmed. */
  lemma AnchoredAfterMarking(d: Dag, f: Dag, blocks: set<Id>, conf: Conflicts, vb: VoidedBy, vb': VoidedBy, s: set<Id>)
    requires Anchored(d, f, blocks, vb) && conf.Keys == vb.Keys == d.deps.Keys && Exact(d, vb)
    requires SelfGrown(d, vb, vb', Marked(d, conf, vb, s))
    requires forall c :: c in s && c in vb && c !in vb[c] ==> !Confirmed(f, blocks, c)
    ensures Anchored(d, f, blocks, vb')
  {
    hide Confirmed, Anchored, BareOf;
    AnchoredParts(d, f, blocks, vb);
    forall h, v | h in vb' && h in vb'[h] && h !in vb[h] && v in vb && v !in blocks && d.Reaches(h, v) ensures !Confirmed(f, blocks, v) {
      var c :| c in s && c in vb && c !in vb[c] && d.Reaches(c, h);
      if Confirmed(f, blocks, v) {
        ReachesTransitive(d, c, h, v);
        ConfirmedBefore(d, f, blocks, c, v);
      }
    }
    AnchoredGrown(d, f, blocks, vb, vb');
  }

  method VoidRivals(d: Dag, f: Dag, ghost blocks: set<Id>, work: map<Id, nat>, conf: Conflicts, vb: VoidedBy, acc: map<Id, nat>,
                    ghost late: set<Id>, t: Id, rivals: seq<Id>)
    returns (vb': VoidedBy, acc': map<Id, nat>, checks: set<Id>)
    requires Ready(d, f, blocks, work, conf, vb, acc, late)
    requires t in vb && vb[t] == {t} && !Loses(Weights(f, work), conf, vb, t) && Elements(rivals) == conf[t]
    requires forall c :: c in conf[t] ==> !Confirmed(f, blocks, c)
    ensures Ready(d, f, blocks, work, conf, vb', acc', late)
    ensures vb'[t] == {t} && forall c :: c in conf[t] ==> c in vb' && c in vb'[c]
    ensures forall x :: x in vb ==> (x in vb'[x] <==> x in vb[x] || x in Marked(d, conf, vb, conf[t]))
    ensures AsksFor(d, conf, vb, conf[t], checks)
  {
    hide Ready, AsksFor, WeightsKept, Loses, Anchored, Confirmed, BareOf, Weights, Elements, VoidanceKept, Dag.Valid, Exact, Symmetric, Dag.Reaches, Marked;
    ReadyParts(d, f, blocks, work, conf, vb, acc, late);
    AnchoredParts(d, f, blocks, vb);
    RivalsOf(conf, t);
    vb', acc', checks := MarkAllAsVoided(d, f, work, conf, vb, acc, rivals);
    KeptAfterMarking(d, blocks, conf, vb, vb', late, conf[t]);
    AnchoredAfterMarking(d, f, blocks, conf, vb, vb', conf[t]);
    forall c | c in conf[t] ensures !d.Reaches(c, t) {
      NoRivalIsAncestor(d, f, blocks, work, conf, vb, t, c);
    }
    StillOnlyItself(d, conf, vb, vb', conf[t], t);
    forall c | c in conf[t] ensures c in vb'[c] {
      MarkedItself(d, conf, vb, conf[t], c);
    }
    ReadyAgain(d, f, blocks, work, conf, vb', acc', late);
  }

  lemma RivalsOf(conf: Conflicts, t: Id)
    requires Symmetric(conf) && t in conf
    ensures forall c :: c in conf[t] ==> c in conf && conf[c] != {}
  {
    forall c | c in conf[t] ensures c in conf && conf[c] != {} {
      assert t in conf[c];
    }
  }

  lemma MarkedItself(d: Dag, conf: Conflicts, vb: VoidedBy, s: set<Id>, c: Id)
    requires d.Valid() && conf.Keys == vb.Keys == d.deps.Keys && c in s && c in vb && conf[c] != {}
    ensures c in vb[c] || c in Marked(d, conf, vb, s)
  {
    assert d.Reaches(c, c);
  }

  /** What is to the right of `t` and voided by itself alone: it may win now. */
  ghost function Freed(d: Dag, vb: VoidedBy, t: Id): set<Id>
    requires d.Valid()
  {
    set x | x in d.Desc(t) && x in vb && vb[x] == {x}
  }

  lemma FreedAreLeftAlone(d: Dag, vb: VoidedBy, vb': VoidedBy, t: Id)
    requires d.Valid() && Exact(d, vb) && t in vb && vb[t] == {t} && Cleared(vb, vb', d.Desc(t), t)
    ensures LeftAlone(vb, t, d.Desc(t)) == Freed(d, vb', t)
  {
    forall x | x in d.Desc(t) ensures vb'[x] == vb[x] - {t} && t in vb[x] {
      assert forall g :: g in vb'[x] <==> g in vb[x] && g != t;
    }
    assert vb'[t] == {};
  }

  method MarkAsWinner(d: Dag, ghost f: Dag, ghost blocks: set<Id>, conf: Conflicts, vb: VoidedBy, ghost late: set<Id>, t: Id)
    returns (vb': VoidedBy, checks: set<Id>)
    requires VoidanceKept(d, blocks, conf, vb, late) && Anchored(d, f, blocks, vb) && t in vb && vb[t] == {t}
    requires forall c :: c in conf[t] ==> c in vb && c in vb[c]
    ensures VoidanceKept(d, blocks, conf, vb', late) && Anchored(d, f, blocks, vb') && vb'.Keys == vb.Keys && vb'[t] == {}
    ensures forall x :: x in vb ==> (x in vb'[x] <==> x in vb[x] && x != t)
    ensures checks == Freed(d, vb', t)
  {
    hide Anchored;
    WinnerIsClear(d, vb, t);
    vb', checks := RemoveVoidedBy(d, vb, t, t);
    KeptAfterWinning(d, blocks, conf, vb, vb', late, t);
    AnchoredShrunk(d, f, blocks, vb, vb', d.Desc(t), t);
    FreedAreLeftAlone(d, vb, vb', t);
  }
}
