/** Blocks over the DAG: chains, the transactions a chain confirms, and its score. */
module BlockTree {
  import opened Graph

  /** `full` has every edge: parents and spent transactions.  A block points to exactly one block,
  its parent, and otherwise to transactions; only the genesis has no parent. */
  datatype Tree = Tree(full: Dag, blocks: set<Id>, parentOf: map<Id, Id>, genesis: Id, work: map<Id, nat>) {

    ghost predicate Valid() {
      && full.Valid() && work.Keys == full.deps.Keys
      && (forall v :: v in work ==> work[v] > 0)
      && blocks <= full.deps.Keys && genesis in blocks && full.deps[genesis] == {}
      && parentOf.Keys == blocks - {genesis}
      && (forall b :: b in parentOf ==> parentOf[b] in blocks && parentOf[b] in full.deps[b])
      && (forall b, p :: b in parentOf && p in full.deps[b] && p in blocks ==> p == parentOf[b])
    }

    /** `t` is `v` or reached from `v` through transactions only. */
    ghost predicate TxReaches(t: Id, v: Id)
      requires Valid() && v in full.deps
      decreases full.ts[v]
    {
      t == v || exists p :: p in full.deps[v] && p !in blocks && TxReaches(t, p)
    }

    function TxParents(b: Id): set<Id>
      requires b in full.deps
    {
      full.deps[b] - blocks
    }

    /** `b` and its ancestors down to the genesis. */
    ghost function Chain(b: Id): set<Id>
      requires Valid() && b in blocks
      decreases full.ts[b]
    {
      if b == genesis then {b} else {b} + Chain(parentOf[b])
    }

    ghost function Height(b: Id): nat
      requires Valid() && b in blocks
      decreases full.ts[b]
    {
      if b == genesis then 0 else 1 + Height(parentOf[b])
    }

    /** Transactions that block `b` reaches by paths through transactions only. */
    ghost function TxPast(b: Id): set<Id>
      requires Valid() && b in blocks
    {
      set t | t in full.deps && t != b && TxReaches(t, b)
    }

    /** All transactions confirmed by the chain of `b`. */
    ghost function Past(b: Id): set<Id>
      requires Valid() && b in blocks
      decreases full.ts[b]
    {
      if b == genesis then {} else Past(parentOf[b]) + TxPast(b)
    }

    /** Transactions confirmed by `b` and by no block before it on its chain. */
    ghost function NewTxs(b: Id): set<Id>
      requires Valid() && b in blocks
    {
      if b == genesis then {} else TxPast(b) - Past(parentOf[b])
    }

    /** The work of all blocks of the chain and of all transactions they confirm. */
    ghost function Score(b: Id): nat
      requires Valid() && b in blocks
    {
      ChainIsBlocks(this, b);
      PastIsTxs(this, b);
      WorkOf(work, Chain(b)) + WorkOf(work, Past(b))
    }
  }

  lemma ParentOlder(g: Tree, b: Id)
    requires g.Valid() && b in g.parentOf
    ensures g.parentOf[b] in g.full.deps[b] && g.full.ts[g.parentOf[b]] < g.full.ts[b]
  {
  }

  lemma {:induction false} ChainIsBlocks(g: Tree, b: Id)
    requires g.Valid() && b in g.blocks
    ensures g.Chain(b) <= g.blocks && b in g.Chain(b) && g.genesis in g.Chain(b)
    decreases g.full.ts[b]
  {
    if b != g.genesis {
      ParentOlder(g, b);
      ChainIsBlocks(g, g.parentOf[b]);
    }
  }

  lemma {:induction false} PastIsTxs(g: Tree, b: Id)
    requires g.Valid() && b in g.blocks
    ensures g.Past(b) <= g.full.deps.Keys
    decreases g.full.ts[b]
  {
    if b != g.genesis {
      ParentOlder(g, b);
      PastIsTxs(g, g.parentOf[b]);
    }
  }

  // ----- paths through transactions -----

  lemma {:induction false} TxReachesTx(g: Tree, t: Id, v: Id)
    requires g.Valid() && v in g.full.deps && g.TxReaches(t, v)
    ensures t in g.full.deps && (t == v || t !in g.blocks)
    decreases g.full.ts[v]
  {
    if t != v {
      var p :| p in g.full.deps[v] && p !in g.blocks && g.TxReaches(t, p);
      TxReachesTx(g, t, p);
    }
  }

  /** What a reached transaction points to is reached too. */
  lemma {:induction false} TxReachesFurther(g: Tree, t: Id, v: Id, p: Id)
    requires g.Valid() && v in g.full.deps && g.TxReaches(t, v) && t in g.full.deps && p in g.full.deps[t] && p !in g.blocks
    ensures g.TxReaches(p, v)
    decreases g.full.ts[v]
  {
    if t != v {
      var q :| q in g.full.deps[v] && q !in g.blocks && g.TxReaches(t, q);
      TxReachesFurther(g, t, q, p);
    } else {
      assert g.TxReaches(p, p);
    }
  }

  /** Members of `s` only point to blocks and to members of `s`. */
  ghost predicate TxClosed(g: Tree, s: set<Id>)
    requires g.Valid()
  {
    forall t, p :: t in s && t in g.full.deps && p in g.full.deps[t] && p !in g.blocks ==> p in s
  }

  lemma {:induction false} TxClosedHolds(g: Tree, s: set<Id>, t: Id, v: Id)
    requires g.Valid() && TxClosed(g, s) && v in s && v in g.full.deps && g.TxReaches(t, v)
    ensures t in s
    decreases g.full.ts[v]
  {
    if t != v {
      var p :| p in g.full.deps[v] && p !in g.blocks && g.TxReaches(t, p);
      TxClosedHolds(g, s, t, p);
    }
  }

  lemma TxPastClosed(g: Tree, b: Id)
    requires g.Valid() && b in g.blocks
    ensures TxClosed(g, g.TxPast(b)) && g.TxPast(b) !! g.blocks
  {
    assert b in g.full.deps;
    hide Tree.TxReaches, Tree.Valid;
    forall t | t in g.TxPast(b) ensures t !in g.blocks {
      TxReachesTx(g, t, b);
    }
    forall t, p | t in g.TxPast(b) && p in g.full.deps[t] && p !in g.blocks ensures p in g.TxPast(b) {
      TxReachesFurther(g, t, b, p);
      TxReachesTx(g, p, b);
    }
  }

  lemma {:induction false} PastClosed(g: Tree, b: Id)
    requires g.Valid() && b in g.blocks
    ensures TxClosed(g, g.Past(b)) && g.Past(b) !! g.blocks
    decreases g.full.ts[b]
  {
    if b != g.genesis {
      ParentOlder(g, b);
      PastClosed(g, g.parentOf[b]);
      TxPastClosed(g, b);
    }
  }

  // ----- chains -----

  lemma {:induction false} ChainOrder(g: Tree, b: Id, c: Id)
    requires g.Valid() && b in g.blocks && c in g.Chain(b)
    ensures c in g.blocks && g.full.ts[c] <= g.full.ts[b] && (g.full.ts[c] == g.full.ts[b] ==> c == b)
    ensures g.Chain(c) <= g.Chain(b) && g.Past(c) <= g.Past(b) && g.Height(c) <= g.Height(b)
    ensures c != b ==> g.Height(c) < g.Height(b)
    decreases g.full.ts[b]
  {
    ChainIsBlocks(g, b);
    if c != b {
      ParentOlder(g, b);
      ChainOrder(g, g.parentOf[b], c);
    }
  }

  /** Two blocks of one chain are ordered by their timestamps. */
  lemma {:induction false} ChainTotal(g: Tree, b: Id, c: Id, d: Id)
    requires g.Valid() && b in g.blocks && c in g.Chain(b) && d in g.Chain(b)
    ensures c in g.blocks && d in g.blocks
    ensures g.full.ts[c] <= g.full.ts[d] ==> c in g.Chain(d)
    decreases g.full.ts[b]
  {
    ChainIsBlocks(g, b);
    ChainOrder(g, b, c);
    ChainOrder(g, b, d);
    if d != b && c != b {
      ParentOlder(g, b);
      ChainTotal(g, g.parentOf[b], c, d);
    }
  }

  // ----- scores -----

  lemma ScoreStep(g: Tree, b: Id)
    requires g.Valid() && b in g.parentOf
    ensures g.parentOf[b] in g.blocks && g.NewTxs(b) <= g.work.Keys
    ensures g.Score(b) == g.work[b] + g.Score(g.parentOf[b]) + WorkOf(g.work, g.NewTxs(b))
    ensures g.Score(b) > g.Score(g.parentOf[b])
  {
    var p := g.parentOf[b];
    ParentOlder(g, b);
    ChainIsBlocks(g, p);
    PastIsTxs(g, p);
    if b in g.Chain(p) {
      ChainOrder(g, p, b);
    }
    WorkOfAdd(g.work, g.Chain(p), b);
    assert g.Chain(p) + {b} == g.Chain(b);
    WorkOfDisjoint(g.work, g.Past(p), g.NewTxs(b));
    assert g.Past(p) + g.NewTxs(b) == g.Past(b);
  }

  // ----- the past does not change -----

  /** `h` is `g` with more vertices. */
  ghost predicate Grown(g: Tree, h: Tree) {
    && Extends(g.full, h.full) && g.genesis == h.genesis && g.blocks <= h.blocks
    && (forall v :: v in g.full.deps && v in h.blocks ==> v in g.blocks)
    && (forall b :: b in g.parentOf ==> b in h.parentOf && h.parentOf[b] == g.parentOf[b])
    && (forall v :: v in g.work ==> v in h.work && h.work[v] == g.work[v])
  }

  /** What both trees know of `v`. */
  lemma GrownAt(g: Tree, h: Tree, v: Id)
    requires g.Valid() && h.Valid() && Grown(g, h) && v in g.full.deps
    ensures v in h.full.deps && g.full.deps[v] == h.full.deps[v]
    ensures forall p :: p in g.full.deps[v] ==>
              p in g.full.deps && p in h.full.deps && g.full.ts[p] < g.full.ts[v] && (p in g.blocks <==> p in h.blocks)
  {
  }

  lemma {:induction false} TxReachesKept(g: Tree, h: Tree, t: Id, v: Id)
    requires g.Valid() && h.Valid() && Grown(g, h) && v in g.full.deps && v in h.full.deps && g.TxReaches(t, v)
    ensures h.TxReaches(t, v)
    decreases g.full.ts[v]
  {
    GrownAt(g, h, v);
    if t != v {
      hide Tree.Valid, Grown;
      var p :| p in g.full.deps[v] && p !in g.blocks && g.TxReaches(t, p);
      TxReachesKept(g, h, t, p);
    }
  }

  lemma {:induction false} TxReachesOld(g: Tree, h: Tree, t: Id, v: Id)
    requires g.Valid() && h.Valid() && Grown(g, h) && v in g.full.deps && v in h.full.deps && h.TxReaches(t, v)
    ensures g.TxReaches(t, v)
    decreases g.full.ts[v]
  {
    GrownAt(g, h, v);
    if t != v {
      hide Tree.Valid, Grown;
      var p :| p in h.full.deps[v] && p !in h.blocks && h.TxReaches(t, p);
      TxReachesOld(g, h, t, p);
    }
  }

  lemma TxPastGrown(g: Tree, h: Tree, b: Id)
    requires g.Valid() && h.Valid() && Grown(g, h) && b in g.blocks
    ensures g.TxPast(b) == h.TxPast(b)
  {
    hide Tree.TxReaches;
    forall t ensures t in g.TxPast(b) <==> t in h.TxPast(b) {
      if t in g.TxPast(b) {
        TxReachesKept(g, h, t, b);
      }
      if t in h.TxPast(b) {
        TxReachesOld(g, h, t, b);
        TxReachesTx(g, t, b);
      }
    }
  }

  lemma {:induction false} ChainGrown(g: Tree, h: Tree, b: Id)
    requires g.Valid() && h.Valid() && Grown(g, h) && b in g.blocks
    ensures g.Chain(b) == h.Chain(b)
    decreases g.full.ts[b]
  {
    hide Extends;
    if b != g.genesis {
      ParentOlder(g, b);
      ChainGrown(g, h, g.parentOf[b]);
    }
  }

  lemma {:induction false} HeightGrown(g: Tree, h: Tree, b: Id)
    requires g.Valid() && h.Valid() && Grown(g, h) && b in g.blocks
    ensures g.Height(b) == h.Height(b)
    decreases g.full.ts[b]
  {
    hide Extends;
    if b != g.genesis {
      ParentOlder(g, b);
      HeightGrown(g, h, g.parentOf[b]);
    }
  }

  lemma {:induction false} PastGrown(g: Tree, h: Tree, b: Id)
    requires g.Valid() && h.Valid() && Grown(g, h) && b in g.blocks
    ensures g.Past(b) == h.Past(b)
    decreases g.full.ts[b]
  {
    hide Extends, Tree.TxPast;
    if b != g.genesis {
      ParentOlder(g, b);
      PastGrown(g, h, g.parentOf[b]);
      TxPastGrown(g, h, b);
    }
  }

  /** A block's chain, the transactions it confirms and its score never change. */
  lemma BlockGrown(g: Tree, h: Tree, b: Id)
    requires g.Valid() && h.Valid() && Grown(g, h) && b in g.blocks
    ensures g.Chain(b) == h.Chain(b) && g.Past(b) == h.Past(b) && g.Height(b) == h.Height(b)
    ensures g.NewTxs(b) == h.NewTxs(b) && g.Score(b) == h.Score(b)
  {
    hide Tree.TxReaches, Tree.TxPast, Dag.Valid, Extends, WorkOf;
    ChainGrown(g, h, b);
    HeightGrown(g, h, b);
    PastGrown(g, h, b);
    ChainIsBlocks(g, b);
    PastIsTxs(g, b);
    WorkOfSame(g.work, h.work, g.Chain(b));
    WorkOfSame(g.work, h.work, g.Past(b));
    TxPastGrown(g, h, b);
    if b != g.genesis {
      PastGrown(g, h, g.parentOf[b]);
    }
  }
}
