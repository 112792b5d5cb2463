/** Cleaning the mempool after a reorg: three pruned walks find what has to go, and the removal
leaves no reference behind. */
module Mempool {
  import opened Graph
  import opened Traversal

  /** `d` has parents and spent vertices as edges; `confirmed` are the transactions with a first block. */
  datatype View = View(d: Dag, blocks: set<Id>, confirmed: set<Id>) {

    ghost predicate Valid() {
      d.Valid() && blocks <= d.deps.Keys && confirmed <= d.deps.Keys && blocks !! confirmed
    }

    /** Unconfirmed transactions. */
    function Mempool(): set<Id> {
      set v | v in d.deps && v !in blocks && v !in confirmed
    }

    /** Unconfirmed transactions that break a mempool rule. */
    function Bad(passes: Id -> bool): set<Id> {
      set v | v in d.deps && v !in blocks && v !in confirmed && !passes(v)
    }

    /** Every unconfirmed transaction has a transaction among its parents. */
    ghost predicate TxsHaveTxParents() {
      forall v :: v in Mempool() ==> exists p :: p in d.deps[v] && p in d.deps && p !in blocks
    }
  }

  /** `x` is one of `s` or to the right of one of them. */
  ghost predicate RightOf(d: Dag, s: set<Id>, x: Id)
    requires d.Valid() && x in d.deps
  {
    exists z :: z in s && d.Reaches(z, x)
  }

  ghost function RightSet(d: Dag, s: set<Id>): set<Id>
    requires d.Valid()
  {
    set x | x in d.deps && RightOf(d, s, x)
  }

  lemma ReachesItself(d: Dag, x: Id)
    requires d.Valid() && x in d.deps
    ensures d.Reaches(x, x)
  {
  }

  lemma RightStep(d: Dag, s: set<Id>, x: Id, y: Id)
    requires d.Valid() && x in d.deps && y in d.Next(x) && RightOf(d, s, x)
    ensures RightOf(d, s, y)
  {
    var z :| z in s && d.Reaches(z, x);
    assert d.Reaches(z, y);
  }

  lemma RightSetClosed(d: Dag, s: set<Id>)
    requires d.Valid() && s <= d.deps.Keys
    ensures WalkClosed(Forward(d), s, {}, RightSet(d, s)) && forall r :: r in s ==> Forward(d)[r] <= RightSet(d, s)
  {
    forall x | x in s ensures RightOf(d, s, x) {
      assert d.Reaches(x, x);
    }
    forall x, y | x in RightSet(d, s) && y in d.Next(x) ensures y in RightSet(d, s) {
      RightStep(d, s, x, y);
    }
  }

  // ----- the origin -----

  /** At or below the tips through unconfirmed transactions: what a walk to the left can meet. */
  ghost function Met(view: View, tips: set<Id>): set<Id>
    requires view.Valid()
  {
    BackwardOrdered(view.d);
    Closure(view.d.deps, BackwardKey(view.d), tips, view.blocks + view.confirmed)
  }

  /** The mempool transactions at or below the tips. */
  ghost function BelowTips(view: View, tips: set<Id>): set<Id>
    requires view.Valid()
  {
    Met(view, tips) * view.Mempool()
  }

  /** The confirmed transactions that mempool transactions at or below the tips point to. */
  ghost function Origin(view: View, tips: set<Id>): set<Id>
    requires view.Valid()
  {
    set c | c in view.confirmed && exists v :: v in BelowTips(view, tips) && c in view.d.deps[v]
  }

  lemma MetStep(view: View, tips: set<Id>, c: Id)
    requires view.Valid() && tips <= view.Mempool() && c in view.d.deps
    ensures c in Met(view, tips) <==> c in tips || exists v :: v in BelowTips(view, tips) && c in view.d.deps[v]
  {
    BackwardOrdered(view.d);
    if c in Met(view, tips) && c !in tips {
      var e :| e in view.d.deps && e !in view.blocks + view.confirmed && c in view.d.deps[e] &&
        Found(view.d.deps, BackwardKey(view.d), tips, view.blocks + view.confirmed, e);
      assert e in BelowTips(view, tips);
    }
    if v :| v in BelowTips(view, tips) && c in view.d.deps[v] {
      assert Found(view.d.deps, BackwardKey(view.d), tips, view.blocks + view.confirmed, v);
    }
  }

  lemma OriginIsMet(view: View, tips: set<Id>, c: Id)
    requires view.Valid() && tips <= view.Mempool()
    ensures c in Origin(view, tips) <==> c in view.confirmed && c in Met(view, tips)
  {
    if c in view.confirmed {
      MetStep(view, tips, c);
    }
  }

  /** The walk to the left from the tips; the roots are skipped. */
  method MempoolOrigin(view: View, tips: seq<Id>) returns (origin: seq<Id>)
    requires view.Valid() && Elements(tips) <= view.Mempool()
    ensures Elements(origin) == Origin(view, Elements(tips)) && Elements(origin) <= view.confirmed
  {
    ghost var roots, met := Elements(tips), Met(view, Elements(tips));
    var pruned := view.blocks + view.confirmed;
    BackwardOrdered(view.d);
    ClosureIsClosed(view.d.deps, BackwardKey(view.d), roots, pruned);
    var order := WalkSkippingRoots(view.d.deps, BackwardKey(view.d), tips, pruned, met);
    MetIsVisited(view, tips, order);
    origin := [];
    var i := 0;
    while i < |order|
      invariant 0 <= i <= |order|
      invariant forall c :: c in origin <==> c in order[..i] && c in view.confirmed
    {
      if order[i] !in view.blocks && order[i] in view.confirmed {
        origin := origin + [order[i]];
      }
      i := i + 1;
    }
    forall c ensures c in origin <==> c in Origin(view, roots) {
      OriginIsMet(view, roots, c);
      assert c in order <==> c in Elements(order);
    }
  }

  lemma MetIsVisited(view: View, tips: seq<Id>, order: seq<Id>)
    requires view.Valid() && Elements(tips) <= view.Mempool() && Elements(order) <= Met(view, Elements(tips))
    requires Followed(view.d.deps, Elements(order), view.blocks + view.confirmed, Elements(order) + Elements(tips))
    requires Followed(view.d.deps, Elements(tips), {}, Elements(order) + Elements(tips))
    ensures forall c :: c in view.confirmed ==> (c in Elements(order) <==> c in Met(view, Elements(tips)))
  {
    BackwardOrdered(view.d);
    var all := Elements(order) + Elements(tips);
    forall c | c in view.confirmed && c in Met(view, Elements(tips)) ensures c in Elements(order) {
      ClosedSetHoldsFound(view.d.deps, BackwardKey(view.d), Elements(tips), view.blocks + view.confirmed, all, c);
    }
  }

  // ----- the leftmost invalid transactions -----

  /** Going right from the origin, every vertex is met or is right of a rule breaker that is met. */
  lemma {:induction false} MetOrRightOfBad(view: View, bad: set<Id>, origin: set<Id>, met: set<Id>, o: Id, x: Id)
    requires view.Valid() && x in view.d.deps && o in origin && view.d.Reaches(o, x)
    requires Followed(Forward(view.d), met, bad, met + origin) && Followed(Forward(view.d), origin, {}, met + origin)
    ensures x in met || x in origin || RightOf(view.d, met * bad, x)
    decreases view.d.ts[x]
  {
    if x != o {
      var p :| p in view.d.deps[x] && view.d.Reaches(o, p);
      MetOrRightOfBad(view, bad, origin, met, o, p);
      assert x in Forward(view.d)[p];
      if RightOf(view.d, met * bad, p) {
        RightStep(view.d, met * bad, p, x);
      } else if p in met && p in bad {
        assert view.d.Reaches(p, p);
        RightStep(view.d, met * bad, p, x);
      }
    }
  }

  /** The walk to the right from the origin, pruned at each rule breaker. */
  method LeftmostInvalid(view: View, passes: Id -> bool, origin: seq<Id>) returns (leftmost: set<Id>)
    requires view.Valid() && Elements(origin) <= view.confirmed
    ensures leftmost <= view.d.deps.Keys
    ensures RightSet(view.d, leftmost) == RightSet(view.d, view.Bad(passes) * RightSet(view.d, Elements(origin)))
  {
    hide Dag.Reaches, Dag.Valid;
    var bad := view.Bad(passes);
    ForwardOrdered(view.d);
    RightSetClosed(view.d, Elements(origin));
    var order := WalkSkippingRoots(Forward(view.d), ForwardKey(view.d), origin, bad, RightSet(view.d, Elements(origin)));
    leftmost := {};
    var i := 0;
    while i < |order|
      invariant 0 <= i <= |order| && forall v :: v in leftmost <==> v in order[..i] && v in bad
    {
      if order[i] !in view.blocks && order[i] !in view.confirmed && !passes(order[i]) {
        leftmost := leftmost + {order[i]};
      }
      i := i + 1;
    }
    LeftmostIsLeft(view, bad, Elements(origin), Elements(order), leftmost);
  }

  lemma LeftmostIsLeft(view: View, bad: set<Id>, origin: set<Id>, met: set<Id>, leftmost: set<Id>)
    requires view.Valid() && bad !! origin && met <= RightSet(view.d, origin) && forall v :: v in leftmost <==> v in met && v in bad
    requires Followed(Forward(view.d), met, bad, met + origin) && Followed(Forward(view.d), origin, {}, met + origin)
    ensures RightSet(view.d, leftmost) == RightSet(view.d, bad * RightSet(view.d, origin))
  {
    hide Dag.Reaches, Dag.Valid, Followed;
    assert leftmost == met * bad;
    forall y | y in bad * RightSet(view.d, origin) ensures RightOf(view.d, leftmost, y) {
      var o :| o in origin && view.d.Reaches(o, y);
      MetOrRightOfBad(view, bad, origin, met, o, y);
      ReachesItself(view.d, y);
    }
    SameRight(view.d, leftmost, bad * RightSet(view.d, origin));
  }

  lemma SameRight(d: Dag, few: set<Id>, many: set<Id>)
    requires d.Valid() && few <= many <= d.deps.Keys && forall y :: y in many ==> RightOf(d, few, y)
    ensures RightSet(d, few) == RightSet(d, many)
  {
    hide Dag.Reaches, Dag.Valid;
    forall x | x in RightSet(d, many) ensures RightOf(d, few, x) {
      var y :| y in many && d.Reaches(y, x);
      var z :| z in few && d.Reaches(z, y);
      ReachesTransitive(d, z, y, x);
    }
  }

  // ----- what has to go -----

  /** The rule breakers right of the origin, with everything to their right. */
  ghost function Removable(view: View, passes: Id -> bool, tips: set<Id>): set<Id>
    requires view.Valid()
  {
    RightSet(view.d, view.Bad(passes) * RightSet(view.d, Origin(view, tips)))
  }

  /** Newest first, each vertex once. */
  ghost predicate NewestFirst(d: Dag, order: seq<Id>) {
    && (forall i :: 0 <= i < |order| ==> order[i] in d.ts)
    && (forall i, j :: 0 <= i < j < |order| ==> order[i] != order[j] && d.ts[order[i]] >= d.ts[order[j]])
  }

  /** The unpruned walk to the right. */
  method WalkRightOf(d: Dag, roots: set<Id>) returns (order: seq<Id>)
    requires d.Valid() && roots <= d.deps.Keys
    ensures InOrder(ForwardKey(d), order) && Elements(order) == RightSet(d, roots)
  {
    hide Elements, RightOf;
    ForwardOrdered(d);
    RightSetClosed(d, roots);
    order := WalkWithin(Forward(d), ForwardKey(d), roots, {}, RightSet(d, roots));
    WalkedRight(d, roots, Elements(order));
  }

  lemma ClosedRight(d: Dag, roots: set<Id>, visited: set<Id>, x: Id, y: Id)
    requires WalkClosed(Forward(d), roots, {}, visited) && x in visited && y in d.Next(x) && x in d.deps
    ensures y in visited
  {
    assert y in Forward(d)[x];
  }

  lemma WalkedRight(d: Dag, roots: set<Id>, visited: set<Id>)
    requires d.Valid() && WalkClosed(Forward(d), roots, {}, visited) && roots <= visited <= RightSet(d, roots)
    ensures visited == RightSet(d, roots)
  {
    hide Dag.Reaches, Dag.Valid, WalkClosed, Forward, Dag.Next;
    forall x, y | x in visited && y in d.Next(x) ensures y in visited {
      ClosedRight(d, roots, visited, x, y);
    }
    forall x | x in RightSet(d, roots) ensures x in visited {
      var z :| z in roots && d.Reaches(z, x);
      ClosedRightHoldsDescendant(d, z, x, visited);
    }
  }

  /** The whole search.  The three pruned walks find exactly `Removable`. */
  method ComputeInvalid(view: View, passes: Id -> bool, tips: seq<Id>) returns (toRemove: seq<Id>)
    requires view.Valid() && Elements(tips) <= view.Mempool()
    ensures Elements(toRemove) == Removable(view, passes, Elements(tips))
    ensures NewestFirst(view.d, toRemove)
  {
    hide RightSet, Origin, InOrder, Dag.Valid;
    if |tips| == 0 {
      toRemove := [];
      NothingBelow(view, passes, tips);
      return;
    }
    var origin := MempoolOrigin(view, tips);
    var leftmost := LeftmostInvalid(view, passes, origin);
    var order := WalkRightOf(view.d, leftmost);
    toRemove := Reversed(view.d, order);
  }

  method Reversed(d: Dag, order: seq<Id>) returns (r: seq<Id>)
    requires d.Valid() && InOrder(ForwardKey(d), order)
    ensures Elements(r) == Elements(order) && NewestFirst(d, r)
  {
    r := [];
    var i := |order|;
    while i > 0
      invariant 0 <= i <= |order| && |r| == |order| - i
      invariant forall k :: 0 <= k < |r| ==> r[k] == order[|order| - 1 - k]
    {
      i := i - 1;
      r := r + [order[i]];
    }
    forall v | v in order ensures v in r {
      var k :| 0 <= k < |order| && order[k] == v;
      assert r[|order| - 1 - k] == v;
    }
  }

  lemma NothingBelow(view: View, passes: Id -> bool, tips: seq<Id>)
    requires view.Valid() && |tips| == 0
    ensures Removable(view, passes, Elements(tips)) == {}
  {
    forall c ensures c !in Origin(view, {}) {
      OriginIsMet(view, {}, c);
      if c in Met(view, {}) {
        BackwardOrdered(view.d);
        ClosedSetHoldsFound(view.d.deps, BackwardKey(view.d), {}, view.blocks + view.confirmed, {}, c);
      }
    }
    assert Elements(tips) == {};
    assert Origin(view, {}) == {};
    assert RightSet(view.d, {}) == {};
    assert view.Bad(passes) * {} == {};
  }

  /** In a newest-first list a vertex comes after everything that points to it. */
  lemma DescendantsFirst(d: Dag, order: seq<Id>, i: nat, j: nat)
    requires d.Valid() && NewestFirst(d, order) && i < |order| && j < |order| && order[j] in d.deps[order[i]]
    ensures i < j
  {
  }

  // ----- nothing in the mempool is missed -----

  /** Left of every mempool transaction below the tips there is one of the origin. */
  lemma {:induction false} OriginIsLeft(view: View, tips: set<Id>, v: Id)
    requires view.Valid() && view.TxsHaveTxParents() && tips <= view.Mempool() && v in BelowTips(view, tips)
    ensures v in RightSet(view.d, Origin(view, tips))
    decreases view.d.ts[v]
  {
    var p :| p in view.d.deps[v] && p in view.d.deps && p !in view.blocks;
    if p in view.confirmed {
      assert p in Origin(view, tips);
      assert view.d.Reaches(p, p);
      RightStep(view.d, Origin(view, tips), p, v);
    } else {
      MetStep(view, tips, p);
      OriginIsLeft(view, tips, p);
      RightStep(view.d, Origin(view, tips), p, v);
    }
  }

  /** Every rule breaker at or below the tips goes, with everything to its right. */
  lemma NothingMissed(view: View, passes: Id -> bool, tips: set<Id>)
    requires view.Valid() && view.TxsHaveTxParents() && tips <= view.Mempool()
    ensures InvalidBelowTips(view, passes, tips) <= Removable(view, passes, tips)
  {
    forall v | v in BelowTips(view, tips) ensures v in RightSet(view.d, Origin(view, tips)) {
      OriginIsLeft(view, tips, v);
    }
  }

  /** The rule breakers at or below the tips, with everything to their right. */
  ghost function InvalidBelowTips(view: View, passes: Id -> bool, tips: set<Id>): set<Id>
    requires view.Valid()
  {
    RightSet(view.d, view.Bad(passes) * BelowTips(view, tips))
  }

  lemma SameWhenBelow(view: View, passes: Id -> bool, tips: set<Id>)
    requires view.Valid() && view.TxsHaveTxParents() && tips <= view.Mempool()
    requires view.Mempool() * RightSet(view.d, Origin(view, tips)) <= BelowTips(view, tips)
    ensures Removable(view, passes, tips) == InvalidBelowTips(view, passes, tips)
  {
    NothingMissed(view, passes, tips);
    hide Dag.Valid, Dag.Reaches, Origin, BelowTips;
    var bad, right := view.Bad(passes), RightSet(view.d, Origin(view, tips));
    forall x | x in RightSet(view.d, bad * right) ensures RightOf(view.d, bad * BelowTips(view, tips), x) {
      var y :| y in bad * right && view.d.Reaches(y, x);
      assert y in view.Mempool() * right;
    }
  }

  lemma OthersGoToo(view: View, tips: set<Id>, m: Id, passes: Id -> bool)
    requires view.Valid() && m in view.Mempool() && m in RightSet(view.d, Origin(view, tips)) && m !in BelowTips(view, tips)
    requires forall v :: passes(v) <==> v != m
    ensures m in Removable(view, passes, tips) && m !in InvalidBelowTips(view, passes, tips)
  {
    assert view.d.Reaches(m, m);
    hide Dag.Valid, Dag.Reaches, Origin, BelowTips;
    assert m in view.Bad(passes) * RightSet(view.d, Origin(view, tips));
    assert view.Bad(passes) * BelowTips(view, tips) == {};
  }

  /** Nothing else goes, whatever the rules say, exactly when every mempool transaction right of the
  origin is at or below a tip. */
  lemma OnlyBelowTips(view: View, tips: set<Id>)
    requires view.Valid() && view.TxsHaveTxParents() && tips <= view.Mempool()
    ensures (forall passes: Id -> bool :: Removable(view, passes, tips) == InvalidBelowTips(view, passes, tips)) <==>
            view.Mempool() * RightSet(view.d, Origin(view, tips)) <= BelowTips(view, tips)
  {
    hide RightSet, Origin, BelowTips, Removable, InvalidBelowTips, Dag.Valid;
    if view.Mempool() * RightSet(view.d, Origin(view, tips)) <= BelowTips(view, tips) {
      forall passes: Id -> bool ensures Removable(view, passes, tips) == InvalidBelowTips(view, passes, tips) {
        SameWhenBelow(view, passes, tips);
      }
    } else {
      var m :| m in view.Mempool() && m in RightSet(view.d, Origin(view, tips)) && m !in BelowTips(view, tips);
      OthersGoToo(view, tips, m, v => v != m);
    }
  }

  /** A mempool transaction that is not below the tips, as a voided one: 1 is the tip, 2 is not below it. */
  lemma BesideTheTips()
    ensures var view := View(Dag(map[0 := {}, 1 := {0}, 2 := {0}], map[0 := 0, 1 := 1, 2 := 1]), {}, {0});
            && view.Valid() && view.TxsHaveTxParents() && {1} <= view.Mempool()
            && 2 in view.Mempool() * RightSet(view.d, Origin(view, {1})) && 2 !in BelowTips(view, {1})
  {
    var view := View(Dag(map[0 := {}, 1 := {0}, 2 := {0}], map[0 := 0, 1 := 1, 2 := 1]), {}, {0});
    assert view.Valid();
    BackwardOrdered(view.d);
    assert Found(view.d.deps, BackwardKey(view.d), {1}, {} + {0}, 1);
    assert 1 in BelowTips(view, {1}) && 0 in Origin(view, {1});
    assert view.d.Reaches(0, 0);
    RightStep(view.d, Origin(view, {1}), 0, 2);
    if 2 in Met(view, {1}) {
      ClosedSetHoldsFound(view.d.deps, BackwardKey(view.d), {1}, {} + {0}, {0, 1}, 2);
    }
  }

  /** What goes is closed to the right: the condition under which the removal finds no gap. */
  lemma RemovableIsClosed(view: View, passes: Id -> bool, tips: set<Id>, v: Id, c: Id)
    requires view.Valid() && v in Removable(view, passes, tips) && c in view.d.Next(v)
    ensures c in Removable(view, passes, tips)
  {
    RightStep(view.d, view.Bad(passes) * RightSet(view.d, Origin(view, tips)), v, c);
  }
}
