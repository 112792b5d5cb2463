/** The walk that every consensus operation uses: breadth first, ordered by timestamp, with
pruning.  `seen` only remembers what waits in the heap, because in timestamp order a visited
vertex cannot be met again; `Valid` is the argument for that. */
module Traversal {
  import opened Wrappers
  import opened Graph

  /** Neighbours of a walk towards the newest vertices. */
  function Forward(d: Dag): map<Id, set<Id>> {
    map v | v in d.deps :: d.Next(v)
  }

  function ForwardKey(d: Dag): map<Id, int> {
    map v | v in d.ts :: d.ts[v] as int
  }

  /** Heap keys of a walk towards the genesis; its neighbours are `deps`. */
  function BackwardKey(d: Dag): map<Id, int> {
    map v | v in d.ts :: -(d.ts[v] as int)
  }

  ghost predicate Ordered(nbr: map<Id, set<Id>>, key: map<Id, int>) {
    && nbr.Keys == key.Keys
    && forall v, n :: v in nbr && n in nbr[v] ==> n in nbr && key[v] < key[n]
  }

  lemma ForwardOrdered(d: Dag)
    requires d.Valid()
    ensures Ordered(Forward(d), ForwardKey(d))
  {
  }

  lemma BackwardOrdered(d: Dag)
    requires d.Valid()
    ensures Ordered(d.deps, BackwardKey(d))
  {
  }

  method Least(key: map<Id, int>, s: set<Id>) returns (v: Id)
    requires s != {} && s <= key.Keys
    ensures v in s && forall w :: w in s ==> key[v] <= key[w]
  {
    v :| v in s;
    var rest := s - {v};
    while rest != {}
      invariant v in s && rest <= s
      invariant forall w :: w in s && w !in rest ==> key[v] <= key[w]
      decreases rest
    {
      var w :| w in rest;
      rest := rest - {w};
      if key[w] < key[v] { v := w; }
    }
  }

  /** `s` holds the roots and the neighbours of its unpruned members. */
  ghost predicate WalkClosed(nbr: map<Id, set<Id>>, roots: set<Id>, pruned: set<Id>, s: set<Id>) {
    roots <= s && forall v :: v in s && v !in pruned && v in nbr ==> nbr[v] <= s
  }

  /** Each vertex at most once, in timestamp order. */
  ghost predicate InOrder(key: map<Id, int>, order: seq<Id>) {
    && (forall i :: 0 <= i < |order| ==> order[i] in key)
    && (forall i, j :: 0 <= i < j < |order| ==> order[i] != order[j] && key[order[i]] <= key[order[j]])
  }

  ghost function Elements(order: seq<Id>): set<Id> {
    set v | v in order
  }

  lemma InOrderAppend(key: map<Id, int>, order: seq<Id>, v: Id)
    requires InOrder(key, order) && v in key && v !in Elements(order)
    requires forall w :: w in Elements(order) ==> w in key && key[w] <= key[v]
    ensures InOrder(key, order + [v]) && Elements(order + [v]) == Elements(order) + {v}
  {
    assert forall i :: 0 <= i < |order| ==> order[i] in Elements(order);
  }

  /** Every neighbour a walk owes: of its unpruned visits, either visited or held back. */
  ghost predicate Followed(nbr: map<Id, set<Id>>, visited: set<Id>, pruned: set<Id>, all: set<Id>) {
    forall v :: v in visited && v !in pruned && v in nbr ==> nbr[v] <= all
  }

  /** The loop of a walk.  Popping forgets the vertex in `seen`; that no vertex is queued twice is an
  invariant here.  `held` are roots that are seen but never queued.  `bound` is any closed set, so
  the visits stay within every closed set. */
  method WalkFrom(nbr: map<Id, set<Id>>, key: map<Id, int>, queued: set<Id>, held: set<Id>, pruned: set<Id>, ghost bound: set<Id>)
    returns (order: seq<Id>)
    requires Ordered(nbr, key) && bound <= nbr.Keys && WalkClosed(nbr, queued, pruned, bound) && queued !! held
    ensures InOrder(key, order)
    ensures queued <= Elements(order) <= bound && Followed(nbr, Elements(order), pruned, Elements(order) + held)
  {
    var toVisit, seen := queued, queued + held;
    ghost var visited: set<Id> := {};
    order := [];
    while toVisit != {}
      invariant seen == toVisit + held && toVisit !! visited && toVisit !! held
      invariant queued <= toVisit + visited <= bound
      invariant visited == Elements(order) && InOrder(key, order)
      invariant forall v, p :: v in visited && p in toVisit ==> key[v] <= key[p]
      invariant forall v :: v in visited && v !in pruned ==> nbr[v] <= toVisit + visited + held
      decreases nbr.Keys - visited
    {
      var v := Least(key, toVisit);
      toVisit, seen, visited := toVisit - {v}, seen - {v}, visited + {v};
      InOrderAppend(key, order, v);
      order := order + [v];
      if v !in pruned {
        toVisit, seen := toVisit + (nbr[v] - seen), seen + nbr[v];
      }
    }
  }

  /** A walk that visits its roots. */
  method WalkWithin(nbr: map<Id, set<Id>>, key: map<Id, int>, roots: set<Id>, pruned: set<Id>, ghost bound: set<Id>)
    returns (order: seq<Id>)
    requires Ordered(nbr, key) && bound <= nbr.Keys && WalkClosed(nbr, roots, pruned, bound)
    ensures InOrder(key, order)
    ensures WalkClosed(nbr, roots, pruned, Elements(order))
    ensures Elements(order) <= bound
  {
    order := WalkFrom(nbr, key, roots, {}, pruned, bound);
    assert Elements(order) + {} == Elements(order);
  }

  /** A walk that skips its roots.  A root met from a root handled before it is visited after all;
  one met later stays held back.  Either way its neighbours are followed. */
  method WalkSkippingRoots(nbr: map<Id, set<Id>>, key: map<Id, int>, roots: seq<Id>, pruned: set<Id>, ghost bound: set<Id>)
    returns (order: seq<Id>)
    requires Ordered(nbr, key) && bound <= nbr.Keys && Elements(roots) <= nbr.Keys
    requires WalkClosed(nbr, {}, pruned, bound) && forall r :: r in roots ==> nbr[r] <= bound
    ensures InOrder(key, order) && Elements(order) <= bound
    ensures Followed(nbr, Elements(order), pruned, Elements(order) + Elements(roots))
    ensures Followed(nbr, Elements(roots), {}, Elements(order) + Elements(roots))
  {
    var queued: set<Id>, seen: set<Id> := {}, {};
    var i := 0;
    while i < |roots|
      invariant 0 <= i <= |roots| && queued <= seen && queued <= bound
      invariant seen - queued <= Elements(roots)
      invariant forall k :: 0 <= k < i ==> nbr[roots[k]] <= seen
    {
      var r := roots[i];
      assert r in Elements(roots);
      seen := seen + {r};
      queued, seen, i := queued + (nbr[r] - seen), seen + nbr[r], i + 1;
    }
    order := WalkFrom(nbr, key, queued, seen - queued, pruned, bound);
  }

  ghost function Before(key: map<Id, int>, x: Id): set<Id>
    requires x in key
  {
    set y | y in key && key[y] < key[x]
  }

  /** A path leads from a root to `x` without leaving a pruned vertex. */
  ghost predicate Found(nbr: map<Id, set<Id>>, key: map<Id, int>, roots: set<Id>, pruned: set<Id>, x: Id)
    requires Ordered(nbr, key) && x in nbr
    decreases Before(key, x)
  {
    x in roots || exists e :: e in nbr && e !in pruned && x in nbr[e] &&
                              (assert e in Before(key, x) && e !in Before(key, e); Found(nbr, key, roots, pruned, e))
  }

  /** The vertices a walk from `roots` that prunes at `pruned` has to visit. */
  ghost function Closure(nbr: map<Id, set<Id>>, key: map<Id, int>, roots: set<Id>, pruned: set<Id>): set<Id>
    requires Ordered(nbr, key)
  {
    set x | x in nbr && Found(nbr, key, roots, pruned, x)
  }

  lemma ClosureIsClosed(nbr: map<Id, set<Id>>, key: map<Id, int>, roots: set<Id>, pruned: set<Id>)
    requires Ordered(nbr, key) && roots <= nbr.Keys
    ensures WalkClosed(nbr, roots, pruned, Closure(nbr, key, roots, pruned))
  {
  }

  lemma {:induction false} ClosedSetHoldsFound(nbr: map<Id, set<Id>>, key: map<Id, int>, roots: set<Id>, pruned: set<Id>,
                                               s: set<Id>, x: Id)
    requires Ordered(nbr, key) && WalkClosed(nbr, roots, pruned, s)
    requires x in nbr && Found(nbr, key, roots, pruned, x)
    ensures x in s
    decreases Before(key, x)
  {
    if x !in roots {
      var e :| e in nbr && e !in pruned && x in nbr[e] && Found(nbr, key, roots, pruned, e);
      assert e in Before(key, x) && e !in Before(key, e);
      ClosedSetHoldsFound(nbr, key, roots, pruned, s, e);
    }
  }

  /** The whole walk: every vertex of the closure exactly once, in timestamp order, nothing else. */
  method Walk(nbr: map<Id, set<Id>>, key: map<Id, int>, roots: set<Id>, pruned: set<Id>) returns (order: seq<Id>)
    requires Ordered(nbr, key) && roots <= nbr.Keys
    ensures InOrder(key, order)
    ensures Elements(order) == Closure(nbr, key, roots, pruned)
  {
    ClosureIsClosed(nbr, key, roots, pruned);
    order := WalkWithin(nbr, key, roots, pruned, Closure(nbr, key, roots, pruned));
    forall x | x in nbr && Found(nbr, key, roots, pruned, x) ensures x in Elements(order) {
      ClosedSetHoldsFound(nbr, key, roots, pruned, Elements(order), x);
    }
  }

  lemma PrefixStep(key: map<Id, int>, order: seq<Id>, i: nat)
    requires InOrder(key, order) && i < |order|
    ensures Elements(order[..i + 1]) == Elements(order[..i]) + {order[i]} && order[i] !in Elements(order[..i])
    ensures order[i] in Elements(order)
  {
    assert order[..i + 1] == order[..i] + [order[i]];
  }

  /** The members of a set, in some order. */
  method ListOf(s: set<Id>) returns (list: seq<Id>)
    ensures Elements(list) == s && Distinct(list)
  {
    list := [];
    var rest := s;
    while rest != {}
      invariant rest <= s && Elements(list) == s - rest && Distinct(list)
      decreases rest
    {
      var x :| x in rest;
      assert x !in list;
      assert Elements(list + [x]) == Elements(list) + {x};
      list, rest := list + [x], rest - {x};
    }
  }
}
