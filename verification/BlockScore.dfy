/** Scoring a block incrementally.  The walk stops at transactions already counted and at those
whose first block is on the known part of the chain; the sum still is the plain one. */
module BlockScore {
  import opened Graph
  import opened Traversal
  import opened BlockTree

  type FirstBlock = map<Id, Id>

  /** Transactions whose first block is not newer than `newest`. */
  function Known(g: Tree, first: FirstBlock, newest: nat): set<Id> {
    set t | t in first && first[t] in g.full.ts && g.full.ts[first[t]] <= newest
  }

  /** One walk from a transaction parent of `b`: where it goes. */
  method WalkPast(g: Tree, b: Id, q: Id, pruned: set<Id>) returns (order: seq<Id>)
    requires g.Valid() && b in g.blocks && q in g.TxParents(b) && g.blocks <= pruned
    ensures InOrder(BackwardKey(g.full), order) && Elements(order) <= g.blocks + g.TxPast(b)
    ensures WalkClosed(g.full.deps, {q}, pruned, Elements(order))
  {
    BackwardOrdered(g.full);
    PastBound(g, b, q, pruned);
    order := WalkWithin(g.full.deps, BackwardKey(g.full), {q}, pruned, g.blocks + g.TxPast(b));
  }

  lemma PastBound(g: Tree, b: Id, q: Id, pruned: set<Id>)
    requires g.Valid() && b in g.blocks && q in g.TxParents(b) && g.blocks <= pruned
    ensures WalkClosed(g.full.deps, {q}, pruned, g.blocks + g.TxPast(b)) && g.blocks + g.TxPast(b) <= g.full.deps.Keys
  {
    ParentInPast(g, b, q);
    TxPastClosed(g, b);
    hide Tree.TxReaches;
  }

  lemma ParentInPast(g: Tree, b: Id, q: Id)
    requires g.Valid() && b in g.blocks && q in g.TxParents(b)
    ensures q in g.TxPast(b)
  {
    OneStep(g, q, b);
    hide Tree.TxReaches, Tree.Valid, Dag.Valid;
  }

  lemma OneStep(g: Tree, q: Id, b: Id)
    requires g.Valid() && b in g.full.deps && q in g.full.deps[b] && q !in g.blocks
    ensures q in g.full.deps && g.TxReaches(q, b)
  {
    assert g.TxReaches(q, q);
  }

  /** After the walk, what is used or known is closed again and holds the parent walked from. */
  lemma WalkCloses(g: Tree, b: Id, q: Id, used: set<Id>, known: set<Id>, visited: set<Id>)
    requires g.Valid() && b in g.blocks && q in g.TxParents(b) && TxClosed(g, used + known)
    requires WalkClosed(g.full.deps, {q}, g.blocks + used + known, visited) && visited <= g.blocks + g.TxPast(b)
    ensures TxClosed(g, used + known + (visited - g.blocks)) && q in used + known + (visited - g.blocks)
    ensures visited - g.blocks <= g.TxPast(b)
  {
    hide Tree.TxReaches;
    forall t, p | t in used + known + (visited - g.blocks) && t in g.full.deps && p in g.full.deps[t] && p !in g.blocks
      ensures p in used + known + (visited - g.blocks)
    {
      if t !in used + known {
        assert g.full.deps[t] <= visited;
      }
    }
  }

  /** `first'` marks the members of `counted` with `b` when `mark`, and is `first` otherwise. */
  ghost predicate MarkedWith(first: FirstBlock, first': FirstBlock, counted: set<Id>, b: Id, mark: bool) {
    first' == if mark then map t | t in first.Keys + counted :: (if t in counted then b else first[t]) else first
  }

  /** Visits in order: adds the work of, and marks, what is neither a block nor used nor known. */
  method Tally(g: Tree, first: FirstBlock, used: set<Id>, known: set<Id>, b: Id, mark: bool, order: seq<Id>, ghost key: map<Id, int>)
    returns (sum: nat, used': set<Id>, first': FirstBlock)
    requires InOrder(key, order) && Elements(order) <= g.work.Keys && (mark ==> first.Keys <= used + known)
    ensures used' == used + (Elements(order) - g.blocks)
    ensures sum == WorkOf(g.work, Elements(order) - g.blocks - used - known)
    ensures MarkedWith(first, first', Elements(order) - g.blocks - used - known, b, mark)
  {
    hide WorkOf, InOrder, Elements;
    sum, used', first' := 0, used, first;
    ghost var seen: set<Id>, counted: set<Id> := {}, {};
    TallyStart(g, first, b, mark, order);
    var i := 0;
    while i < |order|
      invariant 0 <= i <= |order| && seen == Elements(order[..i]) && seen <= g.work.Keys
      invariant counted == seen - g.blocks - used - known && counted <= g.work.Keys
      invariant used' == used + (seen - g.blocks) && sum == WorkOf(g.work, counted)
      invariant MarkedWith(first, first', counted, b, mark)
    {
      var v := order[i];
      PrefixStep(key, order, i);
      if v !in g.blocks && v !in used' {
        used' := used' + {v};
        if v !in known {
          // The code asserts here that the transaction has no first block yet.
          assert mark ==> v !in first';
          WorkOfAdd(g.work, counted, v);
          counted := counted + {v};
          first' := if mark then first'[v := b] else first';
          sum := sum + g.work[v];
        }
      }
      i := i + 1;
      seen := Elements(order[..i]);
    }
    assert order[..i] == order;
  }

  lemma TallyStart(g: Tree, first: FirstBlock, b: Id, mark: bool, order: seq<Id>)
    ensures Elements(order[..0]) == {} && WorkOf(g.work, {}) == 0
    ensures MarkedWith(first, first, {}, b, mark)
  {
  }

  // ----- the transactions of one block -----

  lemma MarkedAgain(first: FirstBlock, first1: FirstBlock, first2: FirstBlock, s: set<Id>, s': set<Id>, b: Id, mark: bool)
    requires MarkedWith(first, first1, s, b, mark) && MarkedWith(first1, first2, s', b, mark)
    ensures MarkedWith(first, first2, s + s', b, mark)
  {
  }

  lemma KnownAfterMark(g: Tree, first: FirstBlock, first': FirstBlock, s: set<Id>, b: Id, mark: bool, newest: nat)
    requires MarkedWith(first, first', s, b, mark) && (mark ==> s !! first.Keys)
    requires b in g.full.ts && g.full.ts[b] > newest
    ensures Known(g, first', newest) == Known(g, first, newest)
  {
  }

  /** Counting one block after `done`, the used or known transactions before it. */
  ghost predicate Counting(g: Tree, first: FirstBlock, first': FirstBlock, before: set<Id>, now: set<Id>, b: Id, mark: bool,
                           newest: nat, known: set<Id>, sum: nat)
    requires g.Valid() && b in g.blocks
  {
    && before <= now <= before + g.TxPast(b) && now <= g.work.Keys && TxClosed(g, now)
    && MarkedWith(first, first', now - before, b, mark) && Known(g, first', newest) == known
    && sum == WorkOf(g.work, now - before)
  }

  lemma CountingNext(g: Tree, first: FirstBlock, first1: FirstBlock, first2: FirstBlock, before: set<Id>, used: set<Id>, used': set<Id>,
                     visited: set<Id>, b: Id, q: Id, mark: bool, newest: nat, known: set<Id>, sum: nat, more: nat)
    requires g.Valid() && b in g.blocks && q in g.TxParents(b) && g.full.ts[b] > newest
    requires Counting(g, first, first1, before, used + known, b, mark, newest, known, sum)
    requires mark ==> first.Keys <= before
    requires visited <= g.blocks + g.TxPast(b) && WalkClosed(g.full.deps, {q}, g.blocks + used + known, visited)
    requires used' == used + (visited - g.blocks) && visited <= g.work.Keys
    requires more == WorkOf(g.work, visited - g.blocks - used - known)
    requires MarkedWith(first1, first2, visited - g.blocks - used - known, b, mark)
    ensures Counting(g, first, first2, before, used' + known, b, mark, newest, known, sum + more) && q in used' + known
  {
    hide Tree.TxReaches, WorkOf, Tree.Valid, MarkedWith, Known;
    var fresh' := visited - g.blocks - used - known;
    WalkCloses(g, b, q, used, known, visited);
    assert used' + known == used + known + (visited - g.blocks);
    assert used' + known - before == (used + known - before) + fresh';
    WorkOfDisjoint(g.work, used + known - before, fresh');
    MarkedAgain(first, first1, first2, used + known - before, fresh', b, mark);
    MarkedKeys(first, first1, used + known - before, b, mark);
    InTimestamps(g, b);
    KnownAfterMark(g, first1, first2, fresh', b, mark, newest);
  }

  lemma MarkedKeys(first: FirstBlock, first': FirstBlock, s: set<Id>, b: Id, mark: bool)
    requires MarkedWith(first, first', s, b, mark)
    ensures first'.Keys == if mark then first.Keys + s else first.Keys
  {
  }

  lemma ThroughParent(g: Tree, b: Id, t: Id) returns (q: Id)
    requires g.Valid() && b in g.blocks && t in g.TxPast(b)
    ensures q in g.TxParents(b) && q in g.full.deps && g.TxReaches(t, q)
  {
    InTimestamps(g, b);
    DepsKnown(g, b);
    hide Tree.Valid, Dag.Valid;
    q :| q in g.full.deps[b] && q !in g.blocks && g.TxReaches(t, q);
  }

  lemma DepsKnown(g: Tree, b: Id)
    requires g.Valid() && b in g.full.deps
    ensures forall p :: p in g.full.deps[b] ==> p in g.full.deps
  {
  }

  /** All transaction parents walked: exactly the transactions of `b` were counted. */
  lemma CountingDone(g: Tree, b: Id, before: set<Id>, now: set<Id>)
    requires g.Valid() && b in g.parentOf && b in g.blocks && g.parentOf[b] in g.blocks && before == g.Past(g.parentOf[b])
    requires before <= now <= before + g.TxPast(b) && TxClosed(g, now)
    requires forall q :: q in g.TxParents(b) ==> q in now
    ensures now == g.Past(b) && now - before == g.NewTxs(b)
  {
    hide Tree.TxReaches, Tree.TxPast, TxClosed, Tree.TxParents, Dag.Valid;
    forall t | t in g.TxPast(b) ensures t in now {
      var q := ThroughParent(g, b, t);
      TxClosedHolds(g, now, t, q);
    }
  }

  /** Walks from every transaction parent of `b`. */
  method CountParents(g: Tree, first: FirstBlock, used: set<Id>, b: Id, newest: nat, mark: bool, ghost before: set<Id>)
    returns (sum: nat, used': set<Id>, first': FirstBlock)
    requires g.Valid() && b in g.blocks && b in g.parentOf && g.parentOf[b] in g.blocks && g.full.ts[b] > newest
    requires before == used + Known(g, first, newest) == g.Past(g.parentOf[b]) && (mark ==> first.Keys <= before)
    ensures used' + Known(g, first, newest) == g.Past(b) && sum == WorkOf(g.work, g.NewTxs(b))
    ensures MarkedWith(first, first', g.NewTxs(b), b, mark) && Known(g, first', newest) == Known(g, first, newest)
  {
    hide Tree.TxReaches, WorkOf, Tree.Past, Tree.TxPast, MarkedWith, Known, TxClosed;
    var known := Known(g, first, newest);
    sum, used', first' := 0, used, first;
    CountingStart(g, first, before, b, mark, newest);
    var list := ListOf(g.TxParents(b));
    var i := 0;
    while i < |list|
      invariant 0 <= i <= |list| && Counting(g, first, first', before, used' + known, b, mark, newest, known, sum)
      invariant forall k :: 0 <= k < i ==> list[k] in used' + known
    {
      assert list[i] in Elements(list);
      var more;
      more, used', first' := CountParent(g, first', used', known, b, list[i], newest, mark, first, before, sum);
      sum, i := sum + more, i + 1;
    }
    assert forall q :: q in g.TxParents(b) ==> q in Elements(list);
    CountingDone(g, b, before, used' + known);
  }

  method CountParent(g: Tree, first1: FirstBlock, used: set<Id>, known: set<Id>, b: Id, q: Id, newest: nat, mark: bool,
                     ghost first: FirstBlock, ghost before: set<Id>, ghost sum: nat)
    returns (more: nat, used': set<Id>, first2: FirstBlock)
    requires g.Valid() && b in g.blocks && q in g.TxParents(b) && g.full.ts[b] > newest
    requires Counting(g, first, first1, before, used + known, b, mark, newest, known, sum)
    requires mark ==> first.Keys <= before
    ensures used <= used'
    ensures Counting(g, first, first2, before, used' + known, b, mark, newest, known, sum + more) && q in used' + known
  {
    hide Tree.TxReaches, WorkOf, Tree.TxPast, MarkedWith, Known, TxClosed;
    var order := WalkPast(g, b, q, g.blocks + used + known);
    MarkedKeys(first, first1, used + known - before, b, mark);
    PastKnown(g, b);
    more, used', first2 := Tally(g, first1, used, known, b, mark, order, BackwardKey(g.full));
    CountingNext(g, first, first1, first2, before, used, used', Elements(order), b, q, mark, newest, known, sum, more);
  }

  lemma PastKnown(g: Tree, b: Id)
    requires g.Valid() && b in g.blocks
    ensures g.blocks + g.TxPast(b) <= g.work.Keys
  {
  }

  lemma CountingStart(g: Tree, first: FirstBlock, before: set<Id>, b: Id, mark: bool, newest: nat)
    requires g.Valid() && b in g.blocks && b in g.parentOf && g.parentOf[b] in g.blocks
    requires before == g.Past(g.parentOf[b])
    ensures Counting(g, first, first, before, before, b, mark, newest, Known(g, first, newest), 0)
  {
    PastClosed(g, g.parentOf[b]);
    PastIsTxs(g, g.parentOf[b]);
    assert before - before == {};
    hide Tree.TxReaches, Tree.Past;
  }

  // ----- first blocks -----

  /** The first block of a transaction is the earliest block of the chain of `tip` that confirms it. */
  ghost predicate FirstExact(g: Tree, tip: Id, first: FirstBlock)
    requires g.Valid() && tip in g.blocks
  {
    && (forall t :: t in first ==> first[t] in g.Chain(tip) && first[t] in g.blocks && t in g.NewTxs(first[t]))
    && (forall t, c :: c in g.Chain(tip) && c in g.blocks && t in g.NewTxs(c) ==> t in first && first[t] == c)
  }

  lemma {:induction false} FirstOnChain(g: Tree, b: Id, t: Id) returns (c: Id)
    requires g.Valid() && b in g.blocks && t in g.Past(b)
    ensures c in g.Chain(b) && c in g.blocks && t in g.NewTxs(c)
    decreases g.full.ts[b]
  {
    if t in g.NewTxs(b) {
      c := b;
      ChainIsBlocks(g, b);
    } else {
      ParentOlder(g, b);
      c := FirstOnChain(g, g.parentOf[b], t);
    }
  }

  lemma NewTxsInPast(g: Tree, b: Id, c: Id)
    requires g.Valid() && b in g.blocks && c in g.Chain(b)
    ensures c in g.blocks && g.NewTxs(c) <= g.Past(b)
  {
    ChainOrder(g, b, c);
  }

  lemma KnownInPast(g: Tree, tip: Id, first: FirstBlock, p: Id, t: Id)
    requires g.Valid() && tip in g.blocks && FirstExact(g, tip, first) && p in g.Chain(tip) && p in g.blocks && p in g.full.ts
    requires t in Known(g, first, g.full.ts[p])
    ensures t in g.Past(p)
  {
    hide Tree.TxReaches, Tree.TxPast, Tree.Chain, Tree.Past, Tree.NewTxs, Tree.Valid;
    ChainTotal(g, tip, first[t], p);
    NewTxsInPast(g, p, first[t]);
  }

  lemma PastInKnown(g: Tree, tip: Id, first: FirstBlock, p: Id, t: Id)
    requires g.Valid() && tip in g.blocks && FirstExact(g, tip, first) && p in g.Chain(tip) && p in g.blocks && p in g.full.ts
    requires t in g.Past(p)
    ensures t in Known(g, first, g.full.ts[p])
  {
    hide Tree.TxReaches, Tree.TxPast, Tree.Chain, Tree.Past, Tree.NewTxs, Tree.Valid;
    var c := FirstOnChain(g, p, t);
    ChainOrder(g, p, c);
    ChainOrder(g, tip, p);
    InTimestamps(g, c);
  }

  /** Pruning by the timestamp of the first block prunes exactly what the chain up to `p` confirms. */
  lemma KnownIsPast(g: Tree, tip: Id, first: FirstBlock, p: Id)
    requires g.Valid() && tip in g.blocks && FirstExact(g, tip, first) && p in g.Chain(tip)
    ensures p in g.blocks && p in g.full.ts && Known(g, first, g.full.ts[p]) == g.Past(p)
  {
    ChainOrder(g, tip, p);
    InTimestamps(g, p);
    assert Known(g, first, g.full.ts[p]) == g.Past(p) by {
      hide *;
      forall t | t in Known(g, first, g.full.ts[p]) ensures t in g.Past(p) {
        KnownInPast(g, tip, first, p, t);
      }
      forall t | t in g.Past(p) ensures t in Known(g, first, g.full.ts[p]) {
        PastInKnown(g, tip, first, p, t);
      }
    }
  }

  lemma InTimestamps(g: Tree, b: Id)
    requires g.Valid() && b in g.blocks
    ensures b in g.full.ts
  {
  }

  lemma NewTxsAreNew(g: Tree, b: Id)
    requires g.Valid() && b in g.parentOf && b in g.blocks && g.parentOf[b] in g.blocks
    ensures g.NewTxs(b) !! g.Past(g.parentOf[b]) && g.Chain(b) == {b} + g.Chain(g.parentOf[b])
  {
  }

  lemma FirstKeysInPast(g: Tree, tip: Id, first: FirstBlock)
    requires g.Valid() && tip in g.blocks && FirstExact(g, tip, first)
    ensures first.Keys <= g.Past(tip)
  {
    hide Tree.TxReaches, Tree.TxPast;
    forall t | t in first ensures t in g.Past(tip) {
      NewTxsInPast(g, tip, first[t]);
    }
  }

  lemma FirstExactNext(g: Tree, b: Id, first: FirstBlock, first': FirstBlock)
    requires g.Valid() && b in g.parentOf && b in g.blocks && g.parentOf[b] in g.blocks
    requires FirstExact(g, g.parentOf[b], first) && MarkedWith(first, first', g.NewTxs(b), b, true)
    ensures FirstExact(g, b, first')
  {
    hide Tree.TxReaches, Tree.TxPast, Tree.Chain, Tree.Past, Tree.NewTxs, Tree.Valid;
    var p := g.parentOf[b];
    NewTxsAreNew(g, b);
    forall t, c | c in g.Chain(b) && c in g.blocks && t in g.NewTxs(c) ensures t in first' && first'[t] == c {
      if c != b {
        NewTxsInPast(g, p, c);
      }
    }
  }

  // ----- the score of a chain -----

  /** Scores every block of the chain of `c` up to `b` is known except, possibly, that of `b`. */
  ghost predicate ScoresKnown(g: Tree, score: map<Id, nat>, b: Id)
    requires g.Valid() && b in g.blocks
  {
    forall c :: c in g.Chain(b) && c in g.blocks ==> (c == b || c in score) && (c in score ==> score[c] == g.Score(c))
  }

  lemma ParentInChain(g: Tree, b: Id, p: Id)
    requires g.Valid() && b in g.parentOf && b in g.blocks && g.parentOf[b] in g.blocks && p in g.Chain(g.parentOf[b])
    ensures p in g.blocks && g.full.ts[p] < g.full.ts[b] && p in g.Chain(b)
    ensures g.full.ts[g.parentOf[b]] <= g.full.ts[p] ==> g.parentOf[b] == p
    ensures g.full.ts[g.parentOf[b]] > g.full.ts[p] ==>
              g.parentOf[b] in g.parentOf && g.parentOf[g.parentOf[b]] in g.blocks && p in g.Chain(g.parentOf[g.parentOf[b]])
  {
    var q := g.parentOf[b];
    ParentOlder(g, b);
    ChainOrder(g, q, p);
    if q != g.genesis {
      ParentOlder(g, q);
    }
  }

  lemma ScoresKnownParent(g: Tree, score: map<Id, nat>, b: Id)
    requires g.Valid() && b in g.parentOf && b in g.blocks && g.parentOf[b] in g.blocks && ScoresKnown(g, score, b)
    ensures g.parentOf[b] in score && score[g.parentOf[b]] == g.Score(g.parentOf[b]) && ScoresKnown(g, score, g.parentOf[b])
  {
    hide Tree.TxReaches, Tree.TxPast, Tree.Score;
    ParentOlder(g, b);
    ChainIsBlocks(g, g.parentOf[b]);
    forall c | c in g.Chain(g.parentOf[b]) && c in g.blocks ensures c in g.Chain(b) && c != b {
      ChainOrder(g, g.parentOf[b], c);
    }
  }

  /** Scores `b` on top of `p`, the newest block of its chain that is on the best chain.  When
  `mark`, the transactions met get their first block. */
  method ScoreBlockDfs(g: Tree, score: map<Id, nat>, first: FirstBlock, b: Id, mark: bool, newest: nat, ghost p: Id)
    returns (sum: nat, used: set<Id>, first': FirstBlock)
    requires g.Valid() && b in g.parentOf && b in g.blocks && g.parentOf[b] in g.blocks
    requires p in g.Chain(g.parentOf[b]) && p in g.blocks && g.full.ts[p] == newest && ScoresKnown(g, score, b)
    requires Known(g, first, newest) == g.Past(p) && (mark ==> FirstExact(g, p, first))
    ensures sum == g.Score(b) && (b in score ==> score[b] == sum)
    ensures used + g.Past(p) == g.Past(b) && Known(g, first', newest) == g.Past(p)
    ensures if mark then FirstExact(g, b, first') else first' == first
    decreases g.full.ts[b]
  {
    hide Tree.TxReaches, Tree.TxPast, Tree.Past, Tree.Score, Tree.Chain, Tree.NewTxs, Known, WorkOf, FirstExact, MarkedWith, ScoresKnown;
    var q := g.parentOf[b];
    ParentOlder(g, b);
    ParentInChain(g, b, p);
    ScoresKnownParent(g, score, b);
    ScoreStep(g, b);
    ScoreStored(g, score, b);
    var base;
    if g.full.ts[q] <= newest {
      base, used, first' := score[q], {}, first;
    } else {
      base, used, first' := ScoreBlockDfs(g, score, first, q, mark, newest, p);
    }
    if mark {
      FirstKeysInPast(g, q, first');
    }
    ghost var first1 := first';
    var more;
    more, used, first' := CountParents(g, first', used, b, newest, mark, g.Past(q));
    if mark {
      FirstExactNext(g, b, first1, first');
    } else {
      NotMarked(first1, first', g.NewTxs(b), b);
    }
    sum := g.work[b] + base + more;
  }

  lemma NotMarked(first: FirstBlock, first': FirstBlock, s: set<Id>, b: Id)
    requires MarkedWith(first, first', s, b, false)
    ensures first' == first
  {
  }

  /** Recomputing a score gives the stored value. */
  lemma ScoreStored(g: Tree, score: map<Id, nat>, b: Id)
    requires g.Valid() && b in g.blocks && ScoresKnown(g, score, b)
    ensures b in score ==> score[b] == g.Score(b)
  {
    hide Tree.Score;
    ChainIsBlocks(g, b);
  }
}
