/** What the consensus metadata has to say about the vertices of the ledger. */
module Ledger {
  import opened Graph

  datatype TxInput = TxInput(tx: Id, index: nat)

  /** Accumulated work of every vertex: its own and that of everything to its right. */
  ghost function Weights(d: Dag, work: map<Id, nat>): map<Id, nat>
    requires d.Valid() && work.Keys == d.deps.Keys
  {
    map t | t in d.deps :: WorkOf(work, d.Desc(t))
  }

  type VoidedBy = map<Id, set<Id>>

  /** Voidance is exact: a vertex carries the hashes of exactly those self-voided vertices that
  are itself or among its ancestors. */
  ghost predicate Exact(d: Dag, vb: VoidedBy)
    requires d.Valid()
  {
    && vb.Keys == d.deps.Keys
    && forall x, g {:trigger g in vb[x]} {:trigger d.Reaches(g, x)} :: x in vb ==> (g in vb[x] <==> g in vb && g in vb[g] && d.Reaches(g, x))
  }

  /** `vb'` is `vb` with `h` added on `marked` and every hash of `more` added on its descendants. */
  ghost predicate Pushed(d: Dag, vb: VoidedBy, vb': VoidedBy, marked: set<Id>, h: Id, more: set<Id>)
    requires d.Valid()
  {
    && vb.Keys == vb'.Keys == d.deps.Keys
    && forall x, g {:trigger g in vb'[x]} {:trigger g in vb[x]} :: x in vb ==>
         (g in vb'[x] <==> g in vb[x] || (g == h && x in marked) || (g in more && d.Reaches(g, x)))
  }

  lemma PushedMark(d: Dag, vb: VoidedBy, vb1: VoidedBy, marked: set<Id>, h: Id, more: set<Id>, v: Id)
    requires d.Valid() && Pushed(d, vb, vb1, marked, h, more) && v in vb
    ensures Pushed(d, vb, vb1[v := vb1[v] + {h}], marked + {v}, h, more)
  {
  }

  lemma PushedNested(d: Dag, vb: VoidedBy, vb1: VoidedBy, vb2: VoidedBy, marked: set<Id>, h: Id, more: set<Id>,
                     v: Id, more': set<Id>)
    requires d.Valid() && v in vb && Pushed(d, vb, vb1, marked, h, more)
    requires Pushed(d, vb1, vb2, d.Desc(v), v, more')
    ensures Pushed(d, vb, vb2, marked, h, more + {v} + more')
  {
    forall x, g | x in vb
      ensures g in vb2[x] <==>
              g in vb[x] || (g == h && x in marked) || (g in more + {v} + more' && d.Reaches(g, x))
    {
      assert x in d.Desc(v) <==> d.Reaches(v, x);
      assert g in vb1[x] <==> g in vb[x] || (g == h && x in marked) || (g in more && d.Reaches(g, x));
    }
  }

  /** Pushing a hash, and the own hashes of descendants, to the right keeps voidance exact. */
  lemma ExactAfterPush(d: Dag, vb: VoidedBy, vb': VoidedBy, h: Id, more: set<Id>)
    requires d.Valid() && Exact(d, vb) && h in vb && more <= vb.Keys
    requires Pushed(d, vb, vb', d.Desc(h), h, more)
    ensures Exact(d, vb')
    ensures forall x :: x in vb ==> (x in vb'[x] <==> x in vb[x] || x == h || x in more)
  {
    forall x | x in vb ensures x in vb'[x] <==> x in vb[x] || x == h || x in more {
      assert d.Reaches(x, x);
    }
    forall x, g | x in vb ensures g in vb'[x] <==> g in vb && g in vb'[g] && d.Reaches(g, x) {
      assert x in d.Desc(h) <==> d.Reaches(h, x);
      assert g in vb[x] <==> g in vb && g in vb[g] && d.Reaches(g, x);
      if d.Reaches(g, x) {
        ReachesTimestamp(d, g, x);
      }
    }
  }

  /** `vb'` is `vb` with `h` taken off `cleared`. */
  ghost predicate Cleared(vb: VoidedBy, vb': VoidedBy, cleared: set<Id>, h: Id) {
    && vb.Keys == vb'.Keys
    && forall x, g {:trigger g in vb'[x]} {:trigger g in vb[x]} :: x in vb ==> (g in vb'[x] <==> g in vb[x] && !(g == h && x in cleared))
  }

  lemma ExactAfterClear(d: Dag, vb: VoidedBy, vb': VoidedBy, h: Id)
    requires d.Valid() && Exact(d, vb) && h in vb
    requires Cleared(vb, vb', d.Desc(h), h)
    ensures Exact(d, vb')
    ensures forall x :: x in vb ==> h !in vb'[x] && (x in vb'[x] <==> x in vb[x] && x != h)
  {
  }
}
