/** The DAG of vertices: reachability, descendants and accumulated work.

Every edge of the ledger points back in time: a vertex is accepted only when its timestamp is
strictly greater than that of each parent and of each vertex it spends.  All recursion below
follows timestamps. */
module Graph {

  type Id = nat

  /** `deps[v]` holds the vertices `v` points to; `ts[v]` is its timestamp. */
  datatype Dag = Dag(deps: map<Id, set<Id>>, ts: map<Id, nat>) {

    ghost predicate Valid() {
      && deps.Keys == ts.Keys
      && forall v, p :: v in deps && p in deps[v] ==> p in deps && ts[p] < ts[v]
    }

    /** `u` is `v` or an ancestor of `v`. */
    ghost predicate Reaches(u: Id, v: Id)
      requires Valid() && v in deps
      decreases ts[v]
    {
      u == v || exists p :: p in deps[v] && Reaches(u, p)
    }

    /** The vertices that point to `u`. */
    function Next(u: Id): set<Id> {
      set v | v in deps && u in deps[v]
    }

    /** `u` with everything to its right. */
    ghost function Desc(u: Id): set<Id>
      requires Valid()
    {
      set v | v in deps && Reaches(u, v)
    }
  }

  lemma {:induction false} ReachesTimestamp(d: Dag, u: Id, v: Id)
    requires d.Valid() && v in d.deps && d.Reaches(u, v)
    ensures u in d.deps && d.ts[u] <= d.ts[v] && (d.ts[u] == d.ts[v] ==> u == v)
    decreases d.ts[v]
  {
    if u != v {
      var p :| p in d.deps[v] && d.Reaches(u, p);
      ReachesTimestamp(d, u, p);
    }
  }

  lemma {:induction false} ReachesTransitive(d: Dag, u: Id, v: Id, w: Id)
    requires d.Valid() && v in d.deps && w in d.deps && d.Reaches(u, v) && d.Reaches(v, w)
    ensures d.Reaches(u, w)
    decreases d.ts[w]
  {
    if v != w {
      var p :| p in d.deps[w] && d.Reaches(v, p);
      ReachesTransitive(d, u, v, p);
    }
  }

  /** A path to a different vertex leaves its source through one of the vertices on its right. */
  lemma {:induction false} ReachesFirstStep(d: Dag, u: Id, v: Id) returns (n: Id)
    requires d.Valid() && v in d.deps && d.Reaches(u, v) && u != v
    ensures n in d.Next(u) && d.Reaches(n, v)
    decreases d.ts[v]
  {
    var p :| p in d.deps[v] && d.Reaches(u, p);
    if p == u {
      n := v;
    } else {
      n := ReachesFirstStep(d, u, p);
    }
  }

  /** A set that holds `u` and is closed to the right holds all descendants of `u`. */
  lemma {:induction false} ClosedRightHoldsDescendant(d: Dag, u: Id, v: Id, closed: set<Id>)
    requires d.Valid() && v in d.deps && d.Reaches(u, v)
    requires u in closed
    requires forall x, y :: x in closed && y in d.Next(x) ==> y in closed
    ensures v in closed
    decreases d.ts[v]
  {
    if u != v {
      var p :| p in d.deps[v] && d.Reaches(u, p);
      ClosedRightHoldsDescendant(d, u, p, closed);
      assert v in d.Next(p);
    }
  }

  /** A set that holds `v` and is closed to the left holds all ancestors of `v`. */
  lemma {:induction false} ClosedLeftHoldsAncestor(d: Dag, u: Id, v: Id, closed: set<Id>)
    requires d.Valid() && v in d.deps && d.Reaches(u, v)
    requires v in closed
    requires forall x, p :: x in closed && x in d.deps && p in d.deps[x] ==> p in closed
    ensures u in closed
    decreases d.ts[v]
  {
    if u != v {
      var p :| p in d.deps[v] && d.Reaches(u, p);
      ClosedLeftHoldsAncestor(d, u, p, closed);
    }
  }

  /** `e` is `d` with more vertices: nothing known changes. */
  ghost predicate Extends(d: Dag, e: Dag) {
    && d.deps.Keys <= e.deps.Keys && d.ts.Keys <= e.ts.Keys
    && (forall v :: v in d.deps ==> d.deps[v] == e.deps[v])
    && (forall v :: v in d.ts ==> d.ts[v] == e.ts[v])
  }

  /** A vertex's past never changes: reachability of old vertices survives any extension. */
  lemma {:induction false} ReachesExtension(d: Dag, e: Dag, u: Id, v: Id)
    requires d.Valid() && e.Valid() && Extends(d, e) && v in d.deps
    ensures d.Reaches(u, v) == e.Reaches(u, v)
    decreases d.ts[v]
  {
    forall p | p in d.deps[v] ensures d.Reaches(u, p) == e.Reaches(u, p) {
      ReachesExtension(d, e, u, p);
    }
  }

  lemma KeysGrow<V>(m: map<Id, V>, id: Id, v: V)
    ensures m[id := v].Keys == m.Keys + {id}
  {
  }

  /** Sum of the work of a set of vertices. */
  ghost function WorkOf(work: map<Id, nat>, s: set<Id>): nat
    requires s <= work.Keys
  {
    if s == {} then 0 else
      var x :| x in s;
      work[x] + WorkOf(work, s - {x})
  }

  lemma {:induction false} WorkOfAdd(work: map<Id, nat>, s: set<Id>, x: Id)
    requires s <= work.Keys && x in work && x !in s
    ensures WorkOf(work, s + {x}) == WorkOf(work, s) + work[x]
    decreases s
  {
    var t := s + {x};
    var y :| y in t && WorkOf(work, t) == work[y] + WorkOf(work, t - {y});
    if y == x {
      assert t - {x} == s;
    } else {
      assert t - {y} == (s - {y}) + {x};
      WorkOfAdd(work, s - {y}, x);
      WorkOfAdd(work, s - {y}, y);
      assert s - {y} + {y} == s;
    }
  }

  lemma {:induction false} WorkOfDisjoint(work: map<Id, nat>, s: set<Id>, t: set<Id>)
    requires s <= work.Keys && t <= work.Keys && s !! t
    ensures WorkOf(work, s + t) == WorkOf(work, s) + WorkOf(work, t)
    decreases t
  {
    if t == {} {
      assert s + t == s;
    } else {
      var x :| x in t;
      WorkOfDisjoint(work, s, t - {x});
      WorkOfAdd(work, t - {x}, x);
      assert t - {x} + {x} == t;
      WorkOfAdd(work, s + (t - {x}), x);
      assert s + (t - {x}) + {x} == s + t;
    }
  }

  lemma WorkOfSubset(work: map<Id, nat>, s: set<Id>, t: set<Id>)
    requires s <= t <= work.Keys
    ensures WorkOf(work, s) <= WorkOf(work, t)
  {
    WorkOfDisjoint(work, s, t - s);
    assert s + (t - s) == t;
  }

  lemma {:induction false} WorkOfSame(work: map<Id, nat>, work': map<Id, nat>, s: set<Id>)
    requires s <= work.Keys && s <= work'.Keys && forall x :: x in s ==> work[x] == work'[x]
    ensures WorkOf(work, s) == WorkOf(work', s)
    decreases s
  {
    if s != {} {
      var x :| x in s;
      WorkOfSame(work, work', s - {x});
      WorkOfAdd(work, s - {x}, x);
      WorkOfAdd(work', s - {x}, x);
      assert s - {x} + {x} == s;
    }
  }
}
