/** Spreading a hash to the right and taking it back: the walks of `add_voided_by` and
`remove_voided_by`, for transactions and for blocks. */
module Voidance {
  import opened Wrappers
  import opened Graph
  import opened Traversal
  import opened Ledger

  // ----- walks to the right -----

  /** An unpruned walk to the right from `t` visits exactly `t` and its descendants, `t` first. */
  lemma WalkIsDesc(d: Dag, t: Id, order: seq<Id>)
    requires d.Valid() && t in d.deps && InOrder(ForwardKey(d), order)
    requires WalkClosed(Forward(d), {t}, {}, Elements(order)) && Elements(order) <= d.Desc(t)
    ensures Elements(order) == d.Desc(t)
    ensures |order| > 0 && order[0] == t
  {
    forall x | x in d.Desc(t) ensures x in Elements(order) {
      ClosedRightHoldsDescendant(d, t, x, Elements(order));
    }
    assert t in order;
    assert order[0] in Elements(order);
    ReachesTimestamp(d, t, order[0]);
  }

  lemma DescIsClosed(d: Dag, t: Id, pruned: set<Id>)
    requires d.Valid() && t in d.deps
    ensures WalkClosed(Forward(d), {t}, pruned, d.Desc(t))
  {
  }

  lemma SkipRootIsClosed(d: Dag, t: Id)
    requires d.Valid() && t in d.deps
    ensures WalkClosed(Forward(d), d.Next(t), {}, d.Desc(t) - {t})
  {
    forall x, y | x in d.Desc(t) && y in d.Next(x) ensures y in d.Desc(t) - {t} {
      ReachesTimestamp(d, t, x);
    }
  }

  lemma SkipRootWalkIsDesc(d: Dag, t: Id, order: seq<Id>)
    requires d.Valid() && t in d.deps
    requires WalkClosed(Forward(d), d.Next(t), {}, Elements(order)) && Elements(order) <= d.Desc(t) - {t}
    ensures Elements(order) + {t} == d.Desc(t) && t !in Elements(order)
  {
    forall x | x in d.Desc(t) && x != t ensures x in Elements(order) {
      var n := ReachesFirstStep(d, t, x);
      ClosedRightHoldsDescendant(d, n, x, Elements(order));
    }
  }

  // ----- what pushing a hash has to do -----

  /** Descendants of `t` that have conflicts and do not void themselves yet. */
  ghost function MustVoid(d: Dag, conf: map<Id, set<Id>>, vb: VoidedBy, t: Id, h: Id): set<Id>
    requires d.Valid() && conf.Keys == vb.Keys == d.deps.Keys
  {
    set n | n in d.Desc(t) && conf[n] != {} && n != h && n !in vb[n]
  }

  /** Descendants of `t` with conflicts that were executed: their conflicts get another chance. */
  ghost function Demoted(d: Dag, conf: map<Id, set<Id>>, vb: VoidedBy, t: Id): set<Id>
    requires d.Valid() && conf.Keys == vb.Keys == d.deps.Keys
  {
    set n | n in d.Desc(t) && conf[n] != {} && n != t && vb[n] == {}
  }

  ghost predicate OwnFirst(vb: VoidedBy) {
    forall x, g {:trigger g in vb[x]} :: x in vb && g in vb[x] ==> g in vb && g in vb[g]
  }

  lemma PushedOwnFirst(d: Dag, vb: VoidedBy, vb': VoidedBy, marked: set<Id>, h: Id, more: set<Id>)
    requires d.Valid() && Pushed(d, vb, vb', marked, h, more) && OwnFirst(vb) && more <= vb.Keys
    requires h in vb && (marked == {} || h in marked || h in vb[h])
    ensures OwnFirst(vb')
  {
    forall x, g | x in vb' && g in vb'[x] ensures g in vb' && g in vb'[g] {
      if g in more { assert d.Reaches(g, g); }
    }
  }

  method WalkRight(d: Dag, t: Id) returns (order: seq<Id>)
    requires d.Valid() && t in d.deps
    ensures InOrder(ForwardKey(d), order) && Elements(order) == d.Desc(t)
    ensures |order| > 0 && order[0] == t
  {
    ForwardOrdered(d);
    DescIsClosed(d, t, {});
    order := WalkWithin(Forward(d), ForwardKey(d), {t}, {}, d.Desc(t));
    WalkIsDesc(d, t, order);
  }

  method WalkRightSkippingRoot(d: Dag, t: Id) returns (order: seq<Id>)
    requires d.Valid() && t in d.deps
    ensures InOrder(ForwardKey(d), order)
    ensures Elements(order) + {t} == d.Desc(t) && t !in Elements(order)
  {
    ForwardOrdered(d);
    SkipRootIsClosed(d, t);
    order := WalkWithin(Forward(d), ForwardKey(d), d.Next(t), {}, d.Desc(t) - {t});
    SkipRootWalkIsDesc(d, t, order);
  }

  /** Adds the work of `order` to that of `t`, ending early once above `stop`. */
  method SumWork(work: map<Id, nat>, key: map<Id, int>, t: Id, order: seq<Id>, stop: Option<nat>) returns (sum: nat)
    requires InOrder(key, order) && Elements(order) <= work.Keys && t in work && t !in Elements(order)
    ensures sum <= WorkOf(work, Elements(order) + {t})
    ensures sum == WorkOf(work, Elements(order) + {t}) || (stop.Some? && stop.value < sum)
  {
    sum := work[t];
    ghost var summed: set<Id> := {t};
    WorkOfAdd(work, {}, t);
    assert {} + {t} == {t};
    var i := 0;
    while i < |order| && !(stop.Some? && sum > stop.value)
      invariant 0 <= i <= |order|
      invariant summed == Elements(order[..i]) + {t} && summed <= Elements(order) + {t}
      invariant sum == WorkOf(work, summed)
    {
      PrefixStep(key, order, i);
      WorkOfAdd(work, summed, order[i]);
      summed := summed + {order[i]};
      sum := sum + work[order[i]];
      i := i + 1;
    }
    assert i == |order| ==> order[..i] == order;
    WorkOfSubset(work, summed, Elements(order) + {t});
  }

  /** The work of `t` and of everything to its right; with `stop`, the sum may end once above it. */
  method AccumulatedWeight(d: Dag, work: map<Id, nat>, t: Id, stop: Option<nat>) returns (sum: nat)
    requires d.Valid() && work.Keys == d.deps.Keys && t in work
    ensures sum <= Weights(d, work)[t]
    ensures sum == Weights(d, work)[t] || (stop.Some? && stop.value < sum)
  {
    var order := WalkRightSkippingRoot(d, t);
    sum := SumWork(work, ForwardKey(d), t, order, stop);
  }

  // ----- adding a hash -----

  /** The state of a push of `h` from `t` after `marked` was visited; `more` voided themselves on the way. */
  ghost predicate Progress(d: Dag, conf: map<Id, set<Id>>, vb: VoidedBy, vb': VoidedBy, t: Id, h: Id,
                           marked: set<Id>, more: set<Id>)
    requires d.Valid() && conf.Keys == vb.Keys == d.deps.Keys
  {
    && Pushed(d, vb, vb', marked, h, more)
    && marked <= d.Desc(t) && more <= MustVoid(d, conf, vb, t, h)
    && forall v :: v in marked ==> h !in vb[v] && (v in MustVoid(d, conf, vb, t, h) ==> v in more)
  }

  lemma ProgressMark(d: Dag, conf: map<Id, set<Id>>, vb: VoidedBy, vb1: VoidedBy, t: Id, h: Id,
                     marked: set<Id>, more: set<Id>, v: Id)
    requires d.Valid() && conf.Keys == vb.Keys == d.deps.Keys && Progress(d, conf, vb, vb1, t, h, marked, more)
    requires v in d.Desc(t) && h !in vb1[v]
    requires conf[v] == {} || v in vb1[v] || v == h
    ensures Progress(d, conf, vb, vb1[v := vb1[v] + {h}], t, h, marked + {v}, more)
  {
    PushedMark(d, vb, vb1, marked, h, more, v);
    assert h !in vb[v];
    if v in MustVoid(d, conf, vb, t, h) {
      assert v in vb1[v] && v !in vb[v];
    }
  }

  lemma InnerMustVoid(d: Dag, conf: map<Id, set<Id>>, vb: VoidedBy, w: VoidedBy, t: Id, h: Id, v: Id)
    requires d.Valid() && conf.Keys == vb.Keys == w.Keys == d.deps.Keys
    requires v in d.Desc(t) && v != h && (h == t || h !in d.Desc(t))
    requires forall n :: n in vb && n in vb[n] ==> n in w[n]
    ensures MustVoid(d, conf, w, v, v) <= MustVoid(d, conf, vb, t, h)
  {
    forall n | n in MustVoid(d, conf, w, v, v) ensures n in MustVoid(d, conf, vb, t, h) {
      ReachesTransitive(d, t, v, n);
      ReachesTimestamp(d, v, n);
      ReachesTimestamp(d, t, v);
    }
  }

  lemma ProgressNested(d: Dag, conf: map<Id, set<Id>>, vb: VoidedBy, vb1: VoidedBy, w: VoidedBy, vb2: VoidedBy,
                       t: Id, h: Id, marked: set<Id>, more: set<Id>, v: Id, inner: set<Id>)
    requires d.Valid() && conf.Keys == vb.Keys == vb1.Keys == w.Keys == d.deps.Keys
    requires Progress(d, conf, vb, vb1, t, h, marked, more)
    requires v in d.Desc(t) && h !in vb1[v] && conf[v] != {} && v !in vb1[v] && v != h
    requires h == t || h !in d.Desc(t)
    requires w == vb1[v := vb1[v] + {h}] && inner == MustVoid(d, conf, w, v, v)
    requires Pushed(d, w, vb2, d.Desc(v), v, inner)
    ensures Progress(d, conf, vb, vb2, t, h, marked + {v}, more + {v} + inner)
  {
    PushedMark(d, vb, vb1, marked, h, more, v);
    PushedNested(d, vb, w, vb2, marked + {v}, h, more, v, inner);
    assert h !in vb[v] && v !in vb[v];
    InnerMustVoid(d, conf, vb, w, t, h, v);
  }

  ghost function ConflictsOf(conf: map<Id, set<Id>>, s: set<Id>): set<Id>
    requires s <= conf.Keys
  {
    set x, c | x in s && c in conf[x] :: c
  }

  /** `gone` are the demoted vertices met so far, directly or inside a nested push. */
  ghost predicate Rechecked(d: Dag, conf: map<Id, set<Id>>, vb: VoidedBy, vb': VoidedBy, t: Id,
                            marked: set<Id>, gone: set<Id>)
    requires d.Valid() && conf.Keys == vb.Keys == vb'.Keys == d.deps.Keys
  {
    && gone <= Demoted(d, conf, vb, t)
    && forall x :: x in Demoted(d, conf, vb, t) ==> x in gone || (x !in marked && vb'[x] == {})
  }

  ghost function Later(d: Dag, t: Id): set<Id>
    requires d.Valid() && t in d.deps
  {
    set x | x in d.deps && d.ts[x] > d.ts[t]
  }

  lemma PushDone(d: Dag, conf: map<Id, set<Id>>, vb: VoidedBy, vb': VoidedBy, t: Id, h: Id,
                 more: set<Id>, gone: set<Id>)
    requires d.Valid() && conf.Keys == vb.Keys == vb'.Keys == d.deps.Keys
    requires Progress(d, conf, vb, vb', t, h, d.Desc(t), more)
    requires Rechecked(d, conf, vb, vb', t, d.Desc(t), gone)
    ensures more == MustVoid(d, conf, vb, t, h)
    ensures gone == Demoted(d, conf, vb, t)
    ensures forall x :: x in d.Desc(t) ==> h !in vb[x]
  {
  }

  lemma RecheckedMark(d: Dag, conf: map<Id, set<Id>>, vb: VoidedBy, vb': VoidedBy, t: Id, h: Id,
                      marked: set<Id>, gone: set<Id>, v: Id)
    requires d.Valid() && conf.Keys == vb.Keys == vb'.Keys == d.deps.Keys
    requires Rechecked(d, conf, vb, vb', t, marked, gone)
    requires v in d.Desc(t) && (conf[v] == {} || v == t || vb'[v] != {} || v in gone)
    ensures Rechecked(d, conf, vb, vb'[v := vb'[v] + {h}], t, marked + {v}, gone)
  {
  }

  lemma RecheckedNested(d: Dag, conf: map<Id, set<Id>>, vb: VoidedBy, w: VoidedBy, vb2: VoidedBy, t: Id,
                        marked: set<Id>, gone: set<Id>, v: Id, inner: set<Id>)
    requires d.Valid() && conf.Keys == vb.Keys == w.Keys == vb2.Keys == d.deps.Keys
    requires Rechecked(d, conf, vb, w, t, marked, gone) && v in marked
    requires v in d.Desc(t) && inner <= d.Desc(v) && Pushed(d, w, vb2, d.Desc(v), v, inner)
    requires forall x :: x in vb ==> vb[x] <= w[x]
    ensures Rechecked(d, conf, vb, vb2, t, marked, gone + Demoted(d, conf, w, v))
  {
    forall x | x in Demoted(d, conf, w, v) ensures x in Demoted(d, conf, vb, t) {
      ReachesTransitive(d, t, v, x);
      ReachesTimestamp(d, v, x);
      ReachesTimestamp(d, t, v);
    }
    forall x | x in Demoted(d, conf, vb, t) && x !in gone && vb2[x] != {} ensures x in Demoted(d, conf, w, v) {
      var g :| g in vb2[x];
      if g in inner && d.Reaches(g, x) {
        ReachesTransitive(d, v, g, x);
      }
    }
  }

  lemma PushedGrows(d: Dag, vb: VoidedBy, vb': VoidedBy, marked: set<Id>, h: Id, more: set<Id>)
    requires d.Valid() && Pushed(d, vb, vb', marked, h, more)
    ensures forall x :: x in vb ==> vb[x] <= vb'[x]
  {
  }

  lemma ConflictsOfUnion(conf: map<Id, set<Id>>, s: set<Id>, s': set<Id>)
    requires s <= conf.Keys && s' <= conf.Keys
    ensures ConflictsOf(conf, s + s') == ConflictsOf(conf, s) + ConflictsOf(conf, s')
  {
  }

  lemma ConflictsOfOne(conf: map<Id, set<Id>>, v: Id)
    requires v in conf
    ensures ConflictsOf(conf, {v}) == conf[v]
  {
    forall c | c in conf[v] ensures c in ConflictsOf(conf, {v}) {
      assert v in {v};
    }
  }

  lemma NestedPushReady(d: Dag, conf: map<Id, set<Id>>, vb: VoidedBy, vb': VoidedBy, t: Id, h: Id,
                        marked: set<Id>, more: set<Id>, v: Id)
    requires d.Valid() && conf.Keys == vb.Keys == vb'.Keys == d.deps.Keys && OwnFirst(vb)
    requires Progress(d, conf, vb, vb', t, h, marked, more) && h in vb && t in vb && v in d.Desc(t)
    requires v != h && v !in vb'[v] && (h == t ==> t in marked) && (h == t || h in vb[h])
    ensures OwnFirst(vb'[v := vb'[v] + {h}])
    ensures forall x :: x in d.Desc(v) ==> v !in vb'[v := vb'[v] + {h}][x]
    ensures v != t ==> Later(d, v) < Later(d, t)
  {
    var w := vb'[v := vb'[v] + {h}];
    PushedMark(d, vb, vb', marked, h, more, v);
    PushedOwnFirst(d, vb, w, marked + {v}, h, more);
    assert v !in w[v];
    ReachesTimestamp(d, t, v);
    if v != t {
      assert v in Later(d, t) && v !in Later(d, v);
    }
  }

  /** Adds `h` on `t` and everything to its right.  A descendant with conflicts voids itself too,
  by a push of its own inside this one.  `ok` is false where the code's assertion that no visited
  vertex carries `h` yet fails.  The conflicts of every transaction that stops being executed are
  handed back to be checked again. */
  method AddVoidedBy(d: Dag, conf: map<Id, set<Id>>, vb: VoidedBy, t: Id, h: Id)
    returns (vb': VoidedBy, checks: set<Id>, ok: bool)
    requires d.Valid() && conf.Keys == vb.Keys == d.deps.Keys && t in vb
    requires OwnFirst(vb) && h in vb && (h == t || (h in vb[h] && h !in d.Desc(t)))
    ensures h in vb[t] ==> ok && vb' == vb && checks == {}
    ensures h !in vb[t] ==> (ok <==> forall x :: x in d.Desc(t) ==> h !in vb[x])
    ensures h !in vb[t] && ok ==> Pushed(d, vb, vb', d.Desc(t), h, MustVoid(d, conf, vb, t, h))
    ensures h !in vb[t] && ok ==> checks == ConflictsOf(conf, Demoted(d, conf, vb, t))
    decreases Later(d, t), if h == t then 0 else 1, 1
  {
    hide Dag.Reaches, Dag.Valid, InOrder;
    vb', checks, ok := vb, {}, true;
    if h in vb[t] {
      return;
    }
    var order := WalkRight(d, t);
    ghost var marked: set<Id>, more: set<Id>, gone: set<Id> := {}, {}, {};
    var i := 0;
    while i < |order|
      invariant 0 <= i <= |order|
      invariant marked == Elements(order[..i]) && (i > 0 ==> t in marked)
      invariant Progress(d, conf, vb, vb', t, h, marked, more)
      invariant Rechecked(d, conf, vb, vb', t, marked, gone) && checks == ConflictsOf(conf, gone)
    {
      var v := order[i];
      PrefixStep(ForwardKey(d), order, i);
      if h in vb'[v] {
        ok := false;
        assert h in vb[v];
        return;
      }
      if v != t && conf[v] != {} && vb'[v] == {} {
        ConflictsOfUnion(conf, gone, {v});
        ConflictsOfOne(conf, v);
        checks := checks + conf[v];
        gone := gone + {v};
      }
      RecheckedMark(d, conf, vb, vb', t, h, marked, gone, v);
      if conf[v] != {} && v != h && v !in vb'[v] {
        vb', checks, more, gone := VoidInside(d, conf, vb', checks, t, h, v, vb, marked, more, gone);
      } else {
        ProgressMark(d, conf, vb, vb', t, h, marked, more, v);
        vb' := vb'[v := vb'[v] + {h}];
      }
      i := i + 1;
      assert marked + {v} == Elements(order[..i]);
      marked := Elements(order[..i]);
    }
    assert order[..i] == order;
    PushDone(d, conf, vb, vb', t, h, more, gone);
  }

  lemma GoneKnown(d: Dag, conf: map<Id, set<Id>>, vb: VoidedBy, vb': VoidedBy, t: Id, marked: set<Id>, gone: set<Id>)
    requires d.Valid() && conf.Keys == vb.Keys == vb'.Keys == d.deps.Keys && Rechecked(d, conf, vb, vb', t, marked, gone)
    ensures gone <= conf.Keys
  {
  }

  /** Visits `v`, which has conflicts and does not void itself yet: `h` goes on `v`, then `v` voids itself. */
  method VoidInside(d: Dag, conf: map<Id, set<Id>>, vb1: VoidedBy, checks1: set<Id>, t: Id, h: Id, v: Id,
                    ghost vb: VoidedBy, ghost marked: set<Id>, ghost more: set<Id>, ghost gone: set<Id>)
    returns (vb2: VoidedBy, checks2: set<Id>, ghost more2: set<Id>, ghost gone2: set<Id>)
    requires d.Valid() && conf.Keys == vb.Keys == vb1.Keys == d.deps.Keys
    requires t in vb && v in d.Desc(t) && h in vb
    requires OwnFirst(vb) && (h == t || (h in vb[h] && h !in d.Desc(t))) && (v == t || t in marked)
    requires conf[v] != {} && v !in vb1[v] && h !in vb1[v] && v != h
    requires Progress(d, conf, vb, vb1, t, h, marked, more)
    requires Rechecked(d, conf, vb, vb1[v := vb1[v] + {h}], t, marked + {v}, gone) && checks1 == ConflictsOf(conf, gone)
    ensures vb2.Keys == d.deps.Keys
    ensures Progress(d, conf, vb, vb2, t, h, marked + {v}, more2)
    ensures Rechecked(d, conf, vb, vb2, t, marked + {v}, gone2) && checks2 == ConflictsOf(conf, gone2)
    decreases Later(d, t), if h == t then 0 else 1, 0
  {
    hide Dag.Reaches, Dag.Valid, Rechecked, OwnFirst;
    var w := vb1[v := vb1[v] + {h}];
    GoneKnown(d, conf, vb, w, t, marked + {v}, gone);
    NestedPushReady(d, conf, vb, vb1, t, h, marked, more, v);
    var checks3, ok;
    vb2, checks3, ok := AddVoidedBy(d, conf, w, v, v);
    ghost var inner, again := MustVoid(d, conf, w, v, v), Demoted(d, conf, w, v);
    ProgressNested(d, conf, vb, vb1, w, vb2, t, h, marked, more, v, inner);
    PushedGrows(d, vb, vb1, marked, h, more);
    RecheckedNested(d, conf, vb, w, vb2, t, marked + {v}, gone, v, inner);
    ConflictsOfUnion(conf, gone, again);
    more2, gone2, checks2 := more + {v} + inner, gone + again, checks1 + checks3;
  }

  // ----- removing a hash -----

  /** To the right of `t`, once a vertex is free of `h` so is what comes after it. */
  ghost predicate ClearedToTheRight(d: Dag, vb: VoidedBy, t: Id, h: Id)
    requires d.Valid() && vb.Keys == d.deps.Keys
  {
    forall x, y :: x in d.Desc(t) && y in d.Next(x) && h !in vb[x] ==> h !in vb[y]
  }

  lemma {:induction false} PrunedWalkMissesNothing(d: Dag, vb: VoidedBy, t: Id, h: Id, pruned: set<Id>, visited: set<Id>, x: Id)
    requires d.Valid() && vb.Keys == d.deps.Keys && t in vb && x in d.Desc(t) && h in vb[x]
    requires ClearedToTheRight(d, vb, t, h) && forall y :: y in pruned ==> y in vb && h !in vb[y]
    requires WalkClosed(Forward(d), {t}, pruned, visited)
    ensures x in visited
    decreases d.ts[x]
  {
    if x != t {
      var p :| p in d.deps[x] && d.Reaches(t, p);
      assert x in d.Next(p) && p in d.Desc(t);
      PrunedWalkMissesNothing(d, vb, t, h, pruned, visited, p);
      assert x in Forward(d)[p];
    }
  }

  method WalkCarriers(d: Dag, vb: VoidedBy, t: Id, h: Id) returns (order: seq<Id>)
    requires d.Valid() && vb.Keys == d.deps.Keys && t in vb && ClearedToTheRight(d, vb, t, h)
    ensures InOrder(ForwardKey(d), order) && Elements(order) <= d.Desc(t)
    ensures forall x :: x in d.Desc(t) && h in vb[x] ==> x in Elements(order)
  {
    var pruned := set x | x in vb && h !in vb[x];
    ForwardOrdered(d);
    DescIsClosed(d, t, pruned);
    order := WalkWithin(Forward(d), ForwardKey(d), {t}, pruned, d.Desc(t));
    forall x | x in d.Desc(t) && h in vb[x] ensures x in Elements(order) {
      PrunedWalkMissesNothing(d, vb, t, h, pruned, Elements(order), x);
    }
  }

  /** Members of `s` for which `h` is the only reason besides themselves to be voided. */
  ghost function LeftAlone(vb: VoidedBy, h: Id, s: set<Id>): set<Id> {
    set x | x in s && x in vb && h in vb[x] && vb[x] - {h} == {x}
  }

  lemma ClearedMark(vb: VoidedBy, vb1: VoidedBy, cleared: set<Id>, h: Id, v: Id)
    requires Cleared(vb, vb1, cleared, h) && v in vb && v !in cleared
    ensures h in vb[v] ==> Cleared(vb, vb1[v := vb1[v] - {h}], cleared + {v}, h)
    ensures h !in vb[v] ==> Cleared(vb, vb1, cleared + {v}, h)
    ensures vb1[v] == vb[v]
  {
    assert forall g :: g in vb1[v] <==> g in vb[v];
  }

  /** Removes `h` from `t` and everything to its right, by a walk that stops at vertices free of `h`. */
  method RemoveVoidedBy(d: Dag, vb: VoidedBy, t: Id, h: Id) returns (vb': VoidedBy, checks: set<Id>)
    requires d.Valid() && vb.Keys == d.deps.Keys && t in vb && ClearedToTheRight(d, vb, t, h)
    ensures Cleared(vb, vb', d.Desc(t), h)
    ensures checks == LeftAlone(vb, h, d.Desc(t))
  {
    vb', checks := vb, {};
    var order := WalkCarriers(d, vb, t, h);
    ghost var cleared: set<Id> := {};
    var i := 0;
    while i < |order|
      invariant 0 <= i <= |order| && cleared == Elements(order[..i])
      invariant Cleared(vb, vb', cleared, h) && checks == LeftAlone(vb, h, cleared)
    {
      var v := order[i];
      PrefixStep(ForwardKey(d), order, i);
      ClearedMark(vb, vb', cleared, h, v);
      if h in vb'[v] {
        if vb'[v] - {h} == {v} {
          checks := checks + {v};
        }
        vb' := vb'[v := vb'[v] - {h}];
      }
      i := i + 1;
      cleared := Elements(order[..i]);
    }
    assert order[..i] == order;
  }

  // ----- the hash of a block -----

  /** The block `b` and everything to the right of the first `n` spenders. */
  ghost function Covered(d: Dag, b: Id, spenders: seq<Id>, n: nat): set<Id>
    requires d.Valid() && n <= |spenders|
  {
    if n == 0 then {b} else Covered(d, b, spenders, n - 1) + d.Desc(spenders[n - 1])
  }

  lemma {:induction false} InCovered(d: Dag, b: Id, spenders: seq<Id>, n: nat, x: Id)
    requires d.Valid() && n <= |spenders|
    ensures x in Covered(d, b, spenders, n) <==> x == b || exists k :: 0 <= k < n && x in d.Desc(spenders[k])
    decreases n
  {
    if n > 0 {
      InCovered(d, b, spenders, n - 1, x);
    }
  }

  lemma CoveredIsClosed(d: Dag, b: Id, spenders: seq<Id>, n: nat, x: Id, y: Id)
    requires d.Valid() && n <= |spenders| && x in Covered(d, b, spenders, n) && x != b && x in d.deps
    requires y in d.deps && d.Reaches(x, y)
    ensures y in Covered(d, b, spenders, n)
  {
    InCovered(d, b, spenders, n, x);
    InCovered(d, b, spenders, n, y);
    var k :| 0 <= k < n && x in d.Desc(spenders[k]);
    ReachesTransitive(d, spenders[k], x, y);
  }

  lemma AllCovered(d: Dag, b: Id, spenders: seq<Id>)
    requires d.Valid() && b in d.deps && Elements(spenders) == d.Next(b)
    ensures Covered(d, b, spenders, |spenders|) == d.Desc(b)
  {
    forall x ensures x in Covered(d, b, spenders, |spenders|) <==> x in d.Desc(b) {
      InCovered(d, b, spenders, |spenders|, x);
      if x in d.Desc(b) && x != b {
        var n := ReachesFirstStep(d, b, x);
        assert n in Elements(spenders);
        var k :| 0 <= k < |spenders| && spenders[k] == n;
        assert x in d.Desc(spenders[k]);
      }
      if k :| 0 <= k < |spenders| && x in d.Desc(spenders[k]) {
        assert spenders[k] in Elements(spenders);
        ReachesTransitive(d, b, spenders[k], x);
      }
    }
  }

  /** Every spender either comes after an earlier one or shares no descendant with the earlier ones. */
  ghost predicate Separate(d: Dag, b: Id, spenders: seq<Id>, n: nat)
    requires d.Valid() && n <= |spenders|
  {
    forall j :: 0 <= j < n ==>
      spenders[j] in Covered(d, b, spenders, j) || d.Desc(spenders[j]) !! Covered(d, b, spenders, j)
  }

  lemma PushedCompose(d: Dag, vb: VoidedBy, vb1: VoidedBy, vb2: VoidedBy, marked: set<Id>, marked': set<Id>, h: Id,
                      more: set<Id>, more': set<Id>)
    requires d.Valid() && Pushed(d, vb, vb1, marked, h, more) && Pushed(d, vb1, vb2, marked', h, more')
    ensures Pushed(d, vb, vb2, marked + marked', h, more + more')
  {
    forall x, g | x in vb
      ensures g in vb2[x] <==>
              g in vb[x] || (g == h && x in marked + marked') || (g in more + more' && d.Reaches(g, x))
    {
      assert g in vb1[x] <==> g in vb[x] || (g == h && x in marked) || (g in more && d.Reaches(g, x));
    }
  }

  /** What has voided itself once the push went through `covered`. */
  ghost function MustVoidIn(conf: map<Id, set<Id>>, vb: VoidedBy, b: Id, covered: set<Id>): set<Id>
    requires conf.Keys == vb.Keys
  {
    set n | n in covered && n in vb && conf[n] != {} && n != b && n !in vb[n]
  }

  lemma MustVoidStep(d: Dag, conf: map<Id, set<Id>>, vb: VoidedBy, vb1: VoidedBy, b: Id, s: Id, covered: set<Id>)
    requires d.Valid() && conf.Keys == vb.Keys == vb1.Keys == d.deps.Keys
    requires Pushed(d, vb, vb1, covered, b, MustVoidIn(conf, vb, b, covered))
    requires d.Desc(s) !! covered
    ensures MustVoidIn(conf, vb, b, covered) + MustVoid(d, conf, vb1, s, b) == MustVoidIn(conf, vb, b, covered + d.Desc(s))
  {
    forall n | n in d.Desc(s) ensures n != b ==> (n in vb1[n] <==> n in vb[n]) {
    }
  }

  lemma SpenderCovered(d: Dag, b: Id, spenders: seq<Id>, n: nat)
    requires d.Valid() && n < |spenders| && spenders[n] in d.deps
    requires spenders[n] in Covered(d, b, spenders, n) && spenders[n] != b
    ensures Covered(d, b, spenders, n + 1) == Covered(d, b, spenders, n)
  {
    forall y | y in d.Desc(spenders[n]) ensures y in Covered(d, b, spenders, n) {
      CoveredIsClosed(d, b, spenders, n, spenders[n], y);
    }
  }

  /** The push of the hash of `b` after its first `n` spenders. */
  ghost predicate BlockPushed(d: Dag, conf: map<Id, set<Id>>, vb: VoidedBy, vb': VoidedBy, b: Id, spenders: seq<Id>, n: nat)
    requires d.Valid() && conf.Keys == vb.Keys && n <= |spenders|
  {
    Pushed(d, vb, vb', Covered(d, b, spenders, n), b, MustVoidIn(conf, vb, b, Covered(d, b, spenders, n)))
  }

  lemma BlockPushStart(d: Dag, conf: map<Id, set<Id>>, vb: VoidedBy, b: Id, spenders: seq<Id>)
    requires d.Valid() && conf.Keys == vb.Keys == d.deps.Keys && b in vb
    ensures BlockPushed(d, conf, vb, vb[b := vb[b] + {b}], b, spenders, 0)
  {
  }

  lemma BlockPushReady(d: Dag, conf: map<Id, set<Id>>, vb: VoidedBy, vb': VoidedBy, b: Id, spenders: seq<Id>, n: nat)
    requires d.Valid() && conf.Keys == vb.Keys == d.deps.Keys && b in vb && Exact(d, vb)
    requires d.deps[b] == {} && b !in vb[b] && Elements(spenders) == d.Next(b) && n < |spenders|
    requires BlockPushed(d, conf, vb, vb', b, spenders, n)
    ensures var s := spenders[n]; s in vb && s != b && b !in d.Desc(s)
    ensures OwnFirst(vb') && b in vb' && b in vb'[b]
    ensures forall x :: x in vb' ==> (b in vb'[x] <==> x in Covered(d, b, spenders, n))
  {
    assert spenders[n] in Elements(spenders);
    InCovered(d, b, spenders, n, b);
    var covered := Covered(d, b, spenders, n);
    PushedOwnFirst(d, vb, vb', covered, b, MustVoidIn(conf, vb, b, covered));
    forall x | x in vb' ensures b in vb'[x] <==> x in covered {
      assert b !in vb[x];
    }
  }

  lemma BlockPushNext(d: Dag, conf: map<Id, set<Id>>, vb: VoidedBy, vb': VoidedBy, vb2: VoidedBy, b: Id,
                      spenders: seq<Id>, n: nat)
    requires d.Valid() && conf.Keys == vb.Keys == vb'.Keys == d.deps.Keys && n < |spenders|
    requires BlockPushed(d, conf, vb, vb', b, spenders, n)
    requires d.Desc(spenders[n]) !! Covered(d, b, spenders, n)
    requires Pushed(d, vb', vb2, d.Desc(spenders[n]), b, MustVoid(d, conf, vb', spenders[n], b))
    ensures BlockPushed(d, conf, vb, vb2, b, spenders, n + 1)
  {
    var s, covered := spenders[n], Covered(d, b, spenders, n);
    MustVoidStep(d, conf, vb, vb', b, s, covered);
    PushedCompose(d, vb, vb', vb2, covered, d.Desc(s), b, MustVoidIn(conf, vb, b, covered), MustVoid(d, conf, vb', s, b));
  }

  lemma BlockPushDone(d: Dag, conf: map<Id, set<Id>>, vb: VoidedBy, vb': VoidedBy, b: Id, spenders: seq<Id>)
    requires d.Valid() && conf.Keys == vb.Keys == d.deps.Keys && b in vb && Elements(spenders) == d.Next(b)
    requires BlockPushed(d, conf, vb, vb', b, spenders, |spenders|)
    ensures Pushed(d, vb, vb', d.Desc(b), b, MustVoid(d, conf, vb, b, b))
  {
    AllCovered(d, b, spenders);
    assert MustVoidIn(conf, vb, b, d.Desc(b)) == MustVoid(d, conf, vb, b, b);
  }

  lemma SeparateStep(d: Dag, b: Id, spenders: seq<Id>, n: nat)
    requires d.Valid() && n < |spenders|
    ensures Separate(d, b, spenders, n + 1) <==>
            Separate(d, b, spenders, n) &&
            (spenders[n] in Covered(d, b, spenders, n) || d.Desc(spenders[n]) !! Covered(d, b, spenders, n))
  {
  }

  lemma SeparatePrefix(d: Dag, b: Id, spenders: seq<Id>, n: nat)
    requires d.Valid() && n <= |spenders|
    ensures Separate(d, b, spenders, |spenders|) ==> Separate(d, b, spenders, n)
  {
  }

  /** What the pushes of the first `n` spenders demote. */
  ghost function DemotedBy(d: Dag, conf: map<Id, set<Id>>, vb: VoidedBy, b: Id, spenders: seq<Id>, n: nat): (s: set<Id>)
    requires d.Valid() && conf.Keys == vb.Keys == d.deps.Keys && n <= |spenders|
    ensures s <= conf.Keys
  {
    if n == 0 then {}
    else
      DemotedBy(d, conf, vb, b, spenders, n - 1) +
      if spenders[n - 1] in Covered(d, b, spenders, n - 1) then {} else Demoted(d, conf, vb, spenders[n - 1])
  }

  lemma {:induction false} InDemotedBy(d: Dag, conf: map<Id, set<Id>>, vb: VoidedBy, b: Id, spenders: seq<Id>, n: nat, x: Id)
    requires d.Valid() && conf.Keys == vb.Keys == d.deps.Keys && n <= |spenders|
    ensures x in DemotedBy(d, conf, vb, b, spenders, n) <==>
            exists k :: 0 <= k < n && spenders[k] !in Covered(d, b, spenders, k) && x in Demoted(d, conf, vb, spenders[k])
  {
    hide Demoted, Covered;
    if n > 0 {
      InDemotedBy(d, conf, vb, b, spenders, n - 1, x);
    }
  }

  /** Some push starts at a spender before `x` when any spender other than `x` comes before it. */
  lemma {:induction false} PushReaches(d: Dag, b: Id, spenders: seq<Id>, j: nat, x: Id) returns (k: nat)
    requires d.Valid() && j < |spenders| && Separate(d, b, spenders, |spenders|) && b in d.deps && d.deps[b] == {} && Elements(spenders) == d.Next(b)
    requires x in d.deps && spenders[j] != x && d.Reaches(spenders[j], x)
    ensures k <= j && spenders[k] !in Covered(d, b, spenders, k) && spenders[k] != x && d.Reaches(spenders[k], x)
    decreases j
  {
    k := j;
    if spenders[j] in Covered(d, b, spenders, j) {
      InCovered(d, b, spenders, j, spenders[j]);
      assert spenders[j] in Elements(spenders);
      var m :| 0 <= m < j && spenders[j] in d.Desc(spenders[m]);
      ReachesTransitive(d, spenders[m], spenders[j], x);
      ReachesTimestamp(d, spenders[m], spenders[j]);
      ReachesTimestamp(d, spenders[j], x);
      k := PushReaches(d, b, spenders, m, x);
    }
  }

  /** The transactions that stop being executed and have their conflicts checked: those with conflicts that
  come after a spender of the block, other than themselves. */
  lemma DemotedByExactly(d: Dag, conf: map<Id, set<Id>>, vb: VoidedBy, b: Id, spenders: seq<Id>, x: Id)
    requires d.Valid() && conf.Keys == vb.Keys == d.deps.Keys && Separate(d, b, spenders, |spenders|) && b in d.deps && d.deps[b] == {}
    requires Elements(spenders) == d.Next(b) && x in vb
    ensures x in DemotedBy(d, conf, vb, b, spenders, |spenders|) <==>
            conf[x] != {} && vb[x] == {} && exists s :: s in d.Next(b) && s != x && d.Reaches(s, x)
  {
    hide Separate, Covered, Dag.Reaches, Dag.Valid;
    InDemotedBy(d, conf, vb, b, spenders, |spenders|, x);
    if s :| conf[x] != {} && vb[x] == {} && s in d.Next(b) && s != x && d.Reaches(s, x) {
      assert s in Elements(spenders);
      var j :| 0 <= j < |spenders| && spenders[j] == s;
      var k := PushReaches(d, b, spenders, j, x);
      assert x in Demoted(d, conf, vb, spenders[k]);
    }
    if k :| 0 <= k < |spenders| && spenders[k] !in Covered(d, b, spenders, k) && x in Demoted(d, conf, vb, spenders[k]) {
      assert spenders[k] in Elements(spenders);
    }
  }

  lemma DemotedStep(d: Dag, conf: map<Id, set<Id>>, vb: VoidedBy, b: Id, spenders: seq<Id>, n: nat)
    requires d.Valid() && conf.Keys == vb.Keys == d.deps.Keys && n < |spenders|
    ensures var more := if spenders[n] in Covered(d, b, spenders, n) then {} else Demoted(d, conf, vb, spenders[n]);
            && more <= conf.Keys
            && ConflictsOf(conf, DemotedBy(d, conf, vb, b, spenders, n + 1)) ==
               ConflictsOf(conf, DemotedBy(d, conf, vb, b, spenders, n)) + ConflictsOf(conf, more)
  {
    hide ConflictsOf, Covered;
    var more := if spenders[n] in Covered(d, b, spenders, n) then {} else Demoted(d, conf, vb, spenders[n]);
    ConflictsOfUnion(conf, DemotedBy(d, conf, vb, b, spenders, n), more);
  }

  /** What earlier pushes did not reach is as it was. */
  lemma SameDemoted(d: Dag, conf: map<Id, set<Id>>, vb: VoidedBy, vb': VoidedBy, b: Id, spenders: seq<Id>, n: nat)
    requires d.Valid() && conf.Keys == vb.Keys == vb'.Keys == d.deps.Keys && n < |spenders| && b in vb && b !in d.Desc(spenders[n])
    requires BlockPushed(d, conf, vb, vb', b, spenders, n) && d.Desc(spenders[n]) !! Covered(d, b, spenders, n)
    ensures Demoted(d, conf, vb', spenders[n]) == Demoted(d, conf, vb, spenders[n])
  {
    hide Dag.Reaches;
    var covered := Covered(d, b, spenders, n);
    forall x | x in d.Desc(spenders[n]) ensures vb'[x] == vb[x] {
      forall g | g in vb'[x] ensures g in vb[x] {
        if g in MustVoidIn(conf, vb, b, covered) && d.Reaches(g, x) {
          InCovered(d, b, spenders, n, g);
          InCovered(d, b, spenders, n, x);
          var k :| 0 <= k < n && g in d.Desc(spenders[k]);
          ReachesTransitive(d, spenders[k], g, x);
        }
      }
    }
  }

  method PushFromSpender(d: Dag, conf: map<Id, set<Id>>, vb1: VoidedBy, b: Id, spenders: seq<Id>, n: nat, ghost vb: VoidedBy)
    returns (vb2: VoidedBy, checks: set<Id>, ok: bool)
    requires d.Valid() && conf.Keys == vb.Keys == d.deps.Keys && b in vb && Exact(d, vb)
    requires d.deps[b] == {} && b !in vb[b] && Elements(spenders) == d.Next(b) && n < |spenders|
    requires BlockPushed(d, conf, vb, vb1, b, spenders, n)
    ensures ok <==> (spenders[n] in Covered(d, b, spenders, n) || d.Desc(spenders[n]) !! Covered(d, b, spenders, n))
    ensures ok ==> BlockPushed(d, conf, vb, vb2, b, spenders, n + 1)
    ensures ok ==> checks == ConflictsOf(conf, if spenders[n] in Covered(d, b, spenders, n) then {} else Demoted(d, conf, vb, spenders[n]))
  {
    BlockPushReady(d, conf, vb, vb1, b, spenders, n);
    vb2, checks, ok := AddVoidedBy(d, conf, vb1, spenders[n], b);
    if ok {
      if b in vb1[spenders[n]] {
        SpenderCovered(d, b, spenders, n);
      } else {
        SameDemoted(d, conf, vb, vb1, b, spenders, n);
        BlockPushNext(d, conf, vb, vb1, vb2, b, spenders, n);
      }
    }
  }

  function Diamond(): Dag {
    Dag(map[0 := {}, 1 := {0}, 2 := {0}, 3 := {1, 2}], map[0 := 0, 1 := 1, 2 := 2, 3 := 3])
  }

  lemma DiamondValid()
    ensures var d := Diamond(); d.Valid() && d.Next(0) == {1, 2} && d.deps.Keys == {0, 1, 2, 3}
    ensures var d := Diamond(); d.deps[0] == {} && d.deps[1] == d.deps[2] == {0} && d.deps[3] == {1, 2}
  {
  }

  lemma DiamondPaths()
    ensures var d := Diamond(); d.Valid() && d.Next(0) == {1, 2} && d.Reaches(1, 3) && d.Reaches(2, 3) && !d.Reaches(1, 2)
  {
    DiamondValid();
    hide Diamond, Dag.Valid, Dag.Next;
    var d := Diamond();
    assert d.Reaches(1, 1) && d.Reaches(2, 2) && !d.Reaches(1, 0);
  }

  /** The guard does trip: both spenders of block 0 are spent by transaction 3. */
  lemma SharedDescendant()
    ensures var d := Diamond(); d.Valid() && Elements([1, 2]) == d.Next(0) && !Separate(d, 0, [1, 2], 2)
  {
    hide Dag.Reaches, Dag.Valid;
    var d := Diamond();
    DiamondPaths();
    assert 3 in d.Desc(1) && 3 in d.Desc(2);
    InCovered(d, 0, [1, 2], 1, 3);
    InCovered(d, 0, [1, 2], 1, 2);
    assert [1, 2][1] == 2;
  }

  /** Voids block `b`: its hash goes on `b`, then to the right of each of its spenders in turn.  The
  pushes meet no vertex twice exactly when the spenders are separate. */
  method AddBlockVoidedBy(d: Dag, conf: map<Id, set<Id>>, vb: VoidedBy, b: Id, spenders: seq<Id>)
    returns (vb': VoidedBy, checks: set<Id>, ok: bool)
    requires d.Valid() && conf.Keys == vb.Keys == d.deps.Keys && b in vb && Exact(d, vb)
    requires d.deps[b] == {} && b !in vb[b] && Elements(spenders) == d.Next(b)
    ensures ok <==> Separate(d, b, spenders, |spenders|)
    ensures ok ==> Pushed(d, vb, vb', d.Desc(b), b, MustVoid(d, conf, vb, b, b))
    ensures ok ==> checks == ConflictsOf(conf, DemotedBy(d, conf, vb, b, spenders, |spenders|))
  {
    hide Demoted, Covered;
    vb', checks, ok := vb[b := vb[b] + {b}], {}, true;
    BlockPushStart(d, conf, vb, b, spenders);
    var i := 0;
    while i < |spenders| && ok
      invariant 0 <= i <= |spenders|
      invariant ok ==> BlockPushed(d, conf, vb, vb', b, spenders, i)
      invariant ok <==> Separate(d, b, spenders, i)
      invariant ok ==> checks == ConflictsOf(conf, DemotedBy(d, conf, vb, b, spenders, i))
    {
      SeparateStep(d, b, spenders, i);
      DemotedStep(d, conf, vb, b, spenders, i);
      var checks2;
      vb', checks2, ok := PushFromSpender(d, conf, vb', b, spenders, i, vb);
      checks, i := checks + checks2, i + 1;
    }
    if ok {
      BlockPushDone(d, conf, vb, vb', b, spenders);
    }
    SeparatePrefix(d, b, spenders, i);
  }

  /** Un-voids block `b`: its hash leaves `b`, then what is to the right of each spender in turn. */
  method RemoveBlockVoidedBy(d: Dag, vb: VoidedBy, b: Id, spenders: seq<Id>) returns (vb': VoidedBy, checks: set<Id>)
    requires d.Valid() && vb.Keys == d.deps.Keys && b in vb && Exact(d, vb)
    requires d.deps[b] == {} && b in vb[b] && Elements(spenders) == d.Next(b)
    ensures Cleared(vb, vb', d.Desc(b), b)
    ensures forall x :: x in vb' ==> b !in vb'[x]
    ensures checks == LeftAlone(vb, b, d.Desc(b) - {b})
  {
    vb', checks := vb[b := vb[b] - {b}], {};
    var i := 0;
    while i < |spenders|
      invariant 0 <= i <= |spenders| && Cleared(vb, vb', Covered(d, b, spenders, i), b)
      invariant checks == LeftAlone(vb, b, Covered(d, b, spenders, i) - {b})
    {
      UnvoidReady(d, vb, vb', b, spenders, i);
      var vb2, checks2 := RemoveVoidedBy(d, vb', spenders[i], b);
      LeftAloneStep(d, vb, vb', b, spenders, i);
      ClearedCompose(vb, vb', vb2, Covered(d, b, spenders, i), d.Desc(spenders[i]), b);
      vb', checks, i := vb2, checks + checks2, i + 1;
    }
    AllCovered(d, b, spenders);
    ExactAfterClear(d, vb, vb', b);
  }

  /** A vertex that an earlier spender cleared is not left alone a second time. */
  lemma LeftAloneStep(d: Dag, vb: VoidedBy, vb': VoidedBy, b: Id, spenders: seq<Id>, n: nat)
    requires d.Valid() && n < |spenders| && b !in d.Desc(spenders[n]) && Cleared(vb, vb', Covered(d, b, spenders, n), b)
    ensures LeftAlone(vb, b, Covered(d, b, spenders, n + 1) - {b}) ==
            LeftAlone(vb, b, Covered(d, b, spenders, n) - {b}) + LeftAlone(vb', b, d.Desc(spenders[n]))
  {
    hide Dag.Reaches, Dag.Desc;
    var covered := Covered(d, b, spenders, n);
    forall x | x in d.Desc(spenders[n]) && x !in covered && x in vb ensures vb'[x] == vb[x] {
      assert forall g :: g in vb'[x] <==> g in vb[x];
    }
  }

  lemma ClearedCompose(vb: VoidedBy, vb1: VoidedBy, vb2: VoidedBy, cleared: set<Id>, cleared': set<Id>, h: Id)
    requires Cleared(vb, vb1, cleared, h) && Cleared(vb1, vb2, cleared', h)
    ensures Cleared(vb, vb2, cleared + cleared', h)
  {
    forall x, g | x in vb ensures g in vb2[x] <==> g in vb[x] && !(g == h && x in cleared + cleared') {
      assert g in vb1[x] <==> g in vb[x] && !(g == h && x in cleared);
    }
  }

  /** Earlier spenders only cleared whole right sides, so the next pruned walk still misses nothing. */
  lemma UnvoidReady(d: Dag, vb: VoidedBy, vb': VoidedBy, b: Id, spenders: seq<Id>, n: nat)
    requires d.Valid() && vb.Keys == d.deps.Keys && b in vb && Exact(d, vb)
    requires d.deps[b] == {} && b in vb[b] && Elements(spenders) == d.Next(b) && n < |spenders|
    requires Cleared(vb, vb', Covered(d, b, spenders, n), b)
    ensures spenders[n] in vb' && ClearedToTheRight(d, vb', spenders[n], b) && b !in d.Desc(spenders[n])
  {
    var s := spenders[n];
    assert s in Elements(spenders);
    assert d.Reaches(b, s);
    forall x, y | x in d.Desc(s) && y in d.Next(x) && b !in vb'[x] ensures b !in vb'[y] {
      ReachesTransitive(d, b, s, x);
      ReachesTimestamp(d, s, x);
      assert b in vb[x];
      CoveredIsClosed(d, b, spenders, n, x, y);
      assert b in vb[y];
    }
  }
}
