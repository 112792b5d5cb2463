/** The markers in `voided_by` and the filters that keep them from being inherited. */
module MarkerFilters {
  import opened Graph

  datatype Mark = SoftVoided | ExecutionFail | ConsensusFail | Hash(id: Id)

  type Marks = map<Id, set<Mark>>

  /** `m` is the hash of a known vertex that failed its execution. */
  predicate OfFailed(vb: Marks, m: Mark) {
    m.Hash? && m.id in vb && ExecutionFail in vb[m.id]
  }

  predicate OfSoft(soft: set<Id>, m: Mark) {
    m.Hash? && m.id in soft
  }

  predicate HasSoft(soft: set<Id>, s: set<Mark>) {
    exists n :: n in s && OfSoft(soft, n)
  }

  /** `m` is the hash of a vertex that is voided by a soft-voided one. */
  predicate TaintedBySoft(soft: set<Id>, vb: Marks, m: Mark) {
    m.Hash? && m.id in vb && HasSoft(soft, vb[m.id])
  }

  /** Every hash is that of a known vertex. */
  ghost predicate HashesKnown(vb: Marks, s: set<Mark>) {
    forall m :: m in s && m.Hash? ==> m.id in vb
  }

  /** What is true of the marks in every reachable state: the markers sit only on the vertices they
  are about, next to the hash of that vertex, and a soft-voided vertex never executes.  The node stops
  when it sets the consensus-fail marker, so no vertex it goes on with carries that. */
  ghost predicate Consistent(soft: set<Id>, vb: Marks) {
    && (forall t :: t in vb ==> HashesKnown(vb, vb[t]))
    && (forall t :: t in vb ==> (SoftVoided in vb[t] <==> t in soft))
    && (forall t :: t in vb && (SoftVoided in vb[t] || ExecutionFail in vb[t]) ==> Hash(t) in vb[t])
    && (forall t :: t in vb && ExecutionFail in vb[t] ==> t !in soft)
    && (forall t :: t in vb ==> ConsensusFail !in vb[t])
  }

  // ----- the filters -----

  /** What the marks of parent `p` become once failed executions are left out. */
  ghost predicate PassesFailed(vb: Marks, p: Id, m: Mark)
    requires p in vb
  {
    m in vb[p] && m != ExecutionFail && !OfFailed(vb, m)
  }

  /** Fails, as the source does, when the parent has the marker without its own hash, or a marker that
  is looked up as if it were a hash. */
  method FilterFailed(vb: Marks, p: Id) returns (ret: set<Mark>, ok: bool)
    requires p in vb && HashesKnown(vb, vb[p])
    ensures ok <==> (ExecutionFail in vb[p] ==> Hash(p) in vb[p]) && ConsensusFail !in vb[p]
    ensures ok ==> forall m :: m in ret <==> PassesFailed(vb, p, m)
  {
    ret, ok := vb[p], true;
    if ExecutionFail in ret {
      if Hash(p) !in ret {
        ok := false;
        return;
      }
      ret := ret - {ExecutionFail} - {Hash(p)};
    }
    var rest := vb[p];
    while rest != {}
      invariant rest <= vb[p] && (ConsensusFail in vb[p] ==> ConsensusFail in rest)
      invariant forall m :: m in ret <==> m in vb[p] && m != ExecutionFail && !(m == Hash(p) && ExecutionFail in vb[p]) &&
                                          !(m !in rest && m != Hash(p) && OfFailed(vb, m))
      decreases rest
    {
      var m :| m in rest;
      rest := rest - {m};
      if m == ConsensusFail {
        ok := false;
        return;
      }
      if m != SoftVoided && m != ExecutionFail && m != Hash(p) && ExecutionFail in vb[m.id] {
        ret := ret - {m};
      }
    }
  }

  ghost predicate PassesSoft(soft: set<Id>, vb: Marks, p: Id, s: set<Mark>, m: Mark) {
    m in s && (HasSoft(soft, s) ==> m.Hash? && m.id != p && m.id !in soft && !TaintedBySoft(soft, vb, m))
  }

  method FilterSoft(soft: set<Id>, vb: Marks, p: Id, s: set<Mark>) returns (ret: set<Mark>)
    requires HashesKnown(vb, s)
    ensures forall m :: m in ret <==> PassesSoft(soft, vb, p, s, m)
  {
    if !HasSoft(soft, s) {
      return s;
    }
    ret := {};
    var rest := s;
    while rest != {}
      invariant rest <= s
      invariant forall m :: m in ret <==> m in s && m !in rest && m.Hash? && m.id != p && m.id !in soft && !TaintedBySoft(soft, vb, m)
      decreases rest
    {
      var m :| m in rest;
      rest := rest - {m};
      if m != SoftVoided && m != ConsensusFail && m != ExecutionFail && m != Hash(p) && m.id !in soft && !HasSoft(soft, vb[m.id]) {
        ret := ret + {m};
      }
    }
  }

  /** What a child inherits from parent `p`. */
  ghost predicate FromParent(soft: set<Id>, vb: Marks, p: Id, m: Mark)
    requires p in vb
  {
    && PassesFailed(vb, p, m)
    && ((exists n :: PassesFailed(vb, p, n) && OfSoft(soft, n)) ==> m.Hash? && m.id != p && m.id !in soft && !TaintedBySoft(soft, vb, m))
  }

  /** Whether a child of `p` is to be voided by `t`: `p` is, `t` did not fail its execution, and when
  something soft-voided voids `p` then `t` is neither `p`, nor soft-voided, nor voided by something
  soft-voided. */
  ghost predicate PassesOn(soft: set<Id>, vb: Marks, p: Id, t: Id)
    requires p in vb && t in vb
  {
    && Hash(t) in vb[p] && ExecutionFail !in vb[t]
    && ((exists x :: x in soft && Hash(x) in vb[p]) ==> t != p && t !in soft && forall x :: x in soft ==> Hash(x) !in vb[t])
  }

  /** In a consistent state the two filters together let exactly these hashes pass. */
  lemma FromParentExactly(soft: set<Id>, vb: Marks, p: Id, t: Id)
    requires Consistent(soft, vb) && p in vb && t in vb
    ensures FromParent(soft, vb, p, Hash(t)) <==> PassesOn(soft, vb, p, t)
  {
    if x :| x in soft && Hash(x) in vb[p] {
      assert x in vb && ExecutionFail !in vb[x];
      assert PassesFailed(vb, p, Hash(x)) && OfSoft(soft, Hash(x));
    }
    if n :| PassesFailed(vb, p, n) && OfSoft(soft, n) {
      assert n == Hash(n.id) && n.id in soft;
    }
    assert TaintedBySoft(soft, vb, Hash(t)) <==> exists x :: x in soft && Hash(x) in vb[t] by {
      if HasSoft(soft, vb[t]) {
        var n :| n in vb[t] && OfSoft(soft, n);
        assert Hash(n.id) in vb[t];
      }
      if x :| x in soft && Hash(x) in vb[t] {
        assert OfSoft(soft, Hash(x));
      }
    }
  }

  /** An ordinary loser `t` of a conflict voids every child of what it voids, whatever else voids that. */
  lemma OrdinaryLoserPasses(soft: set<Id>, vb: Marks, p: Id, t: Id)
    requires Consistent(soft, vb) && p in vb && t in vb && Hash(t) in vb[p] && t != p && t !in soft && ExecutionFail !in vb[t]
    requires forall x :: x in soft ==> Hash(x) !in vb[t]
    ensures FromParent(soft, vb, p, Hash(t))
  {
    FromParentExactly(soft, vb, p, t);
  }

  /** Without soft-voided and failed vertices a child carries all the hashes of its parent. */
  lemma NothingFiltered(vb: Marks, p: Id, t: Id)
    requires Consistent({}, vb) && p in vb && t in vb && Hash(t) in vb[p] && forall x :: x in vb ==> ExecutionFail !in vb[x]
    ensures FromParent({}, vb, p, Hash(t))
  {
    FromParentExactly({}, vb, p, t);
  }

  /** The three assertions of the arrival: nothing inherited from a parent is a marker or the hash of
  a soft-voided vertex. */
  lemma FromParentIsClean(soft: set<Id>, vb: Marks, p: Id, m: Mark)
    requires Consistent(soft, vb) && p in vb && FromParent(soft, vb, p, m)
    ensures m.Hash? && m.id !in soft && m.id in vb
  {
    if m == SoftVoided {
      assert PassesFailed(vb, p, Hash(p)) && OfSoft(soft, Hash(p));
    }
  }

  /** The soft-void marker leaks from `p` exactly when `p` carries it and no hash of a soft-voided
  vertex is left after the failed ones are taken out. */
  lemma SoftMarkerLeaks(soft: set<Id>, vb: Marks, p: Id)
    requires p in vb
    ensures FromParent(soft, vb, p, SoftVoided) <==> SoftVoided in vb[p] && forall n :: n in vb[p] && OfSoft(soft, n) ==> OfFailed(vb, n)
  {
    if SoftVoided in vb[p] && !(forall n :: n in vb[p] && OfSoft(soft, n) ==> OfFailed(vb, n)) {
      var n :| n in vb[p] && OfSoft(soft, n) && !OfFailed(vb, n);
      assert PassesFailed(vb, p, n);
    }
  }

  /** So the last clause of `Consistent` is needed: vertex 0 is soft-voided and failed. */
  lemma BothMarkersLeak()
    ensures FromParent({0}, map[0 := {SoftVoided, ExecutionFail, Hash(0)}], 0, SoftVoided)
  {
    SoftMarkerLeaks({0}, map[0 := {SoftVoided, ExecutionFail, Hash(0)}], 0);
  }

  // ----- arrivals -----

  /** What the new vertex inherits: filtered from its parents, without markers from what it spends. */
  ghost predicate Inherited(soft: set<Id>, vb: Marks, parents: set<Id>, spent: set<Id>, m: Mark)
    requires parents <= vb.Keys && spent <= vb.Keys
  {
    || (exists p :: p in parents && FromParent(soft, vb, p, m))
    || (m.Hash? && exists i :: i in spent && m in vb[i])
  }

  method FromParents(soft: set<Id>, vb: Marks, parents: set<Id>) returns (s: set<Mark>, ok: bool)
    requires Consistent(soft, vb) && parents <= vb.Keys
    ensures ok && forall m :: m in s <==> exists p :: p in parents && FromParent(soft, vb, p, m)
    ensures forall t :: t in vb ==> (Hash(t) in s <==> exists p :: p in parents && PassesOn(soft, vb, p, t))
  {
    forall p, t | p in parents && t in vb ensures FromParent(soft, vb, p, Hash(t)) <==> PassesOn(soft, vb, p, t) {
      FromParentExactly(soft, vb, p, t);
    }
    s, ok := {}, true;
    var rest := parents;
    while rest != {}
      invariant rest <= parents && ok
      invariant forall m :: m in s <==> exists p :: p in parents && p !in rest && FromParent(soft, vb, p, m)
      decreases rest
    {
      var p :| p in rest;
      var kept, fine := FilterFailed(vb, p);
      ok := ok && fine;
      var more := FilterSoft(soft, vb, p, kept);
      forall m ensures m in more <==> FromParent(soft, vb, p, m) {
        assert forall n :: n in kept <==> PassesFailed(vb, p, n);
      }
      s, rest := s + more, rest - {p};
    }
  }

  /** `ok` is false when one of the source's assertions would fail; from a consistent state it never is. */
  method Inherit(soft: set<Id>, vb: Marks, parents: set<Id>, spent: set<Id>) returns (s: set<Mark>, ok: bool)
    requires Consistent(soft, vb) && parents <= vb.Keys && spent <= vb.Keys
    ensures ok && forall m :: m in s <==> Inherited(soft, vb, parents, spent, m)
    ensures SoftVoided !in s && ExecutionFail !in s && HashesKnown(vb, s)
    ensures forall t :: t in vb ==> (Hash(t) in s <==> (exists p :: p in parents && PassesOn(soft, vb, p, t)) || exists i :: i in spent && Hash(t) in vb[i])
  {
    s, ok := FromParents(soft, vb, parents);
    forall m | m in s ensures m.Hash? && m.id !in soft && m.id in vb {
      var p :| p in parents && FromParent(soft, vb, p, m);
      FromParentIsClean(soft, vb, p, m);
    }
    ok := ok && SoftVoided !in s && ExecutionFail !in s && !HasSoft(soft, s);
    ghost var fromParents := s;
    var rest := spent;
    while rest != {}
      invariant rest <= spent && SoftVoided !in s && ExecutionFail !in s
      invariant forall m :: m in s <==> m in fromParents || (m.Hash? && exists i :: i in spent && i !in rest && m in vb[i])
      decreases rest
    {
      var i :| i in rest;
      rest := rest - {i};
      s := s + vb[i] - {SoftVoided} - {ExecutionFail};
    }
    ok := ok && SoftVoided !in s && ExecutionFail !in s;
  }

  /** The marks of all vertices.  Every step of the consensus keeps them consistent, so the arrival
  assertions hold in every state any run reaches. */
  class MarkLedger {
    const soft: set<Id>
    var vb: Marks

    ghost predicate Inv()
      reads this
    {
      Consistent(soft, vb)
    }

    constructor (soft: set<Id>)
      ensures Inv() && this.soft == soft && vb == map[]
    {
      this.soft, vb := soft, map[];
    }

    /** A vertex arrives; `conflicting` says whether it spends what another one spends. */
    method Arrive(id: Id, parents: set<Id>, spent: set<Id>, conflicting: bool) returns (ok: bool)
      requires Inv() && id !in vb && parents <= vb.Keys && spent <= vb.Keys
      modifies this`vb
      ensures Inv() && ok && vb.Keys == old(vb).Keys + {id} && (forall t :: t in old(vb) ==> vb[t] == old(vb)[t])
      ensures forall h :: Hash(h) in vb[id] <==> (h == id && (id in soft || conflicting)) || Inherited(soft, old(vb), parents, spent, Hash(h))
      ensures forall t :: t in old(vb) ==>
                (Hash(t) in vb[id] <==> (exists p :: p in parents && PassesOn(soft, old(vb), p, t)) || exists i :: i in spent && Hash(t) in old(vb)[i])
      ensures SoftVoided in vb[id] <==> id in soft
    {
      var s;
      s, ok := Inherit(soft, vb, parents, spent);
      if id in soft {
        s := s + {SoftVoided, Hash(id)};
      }
      if conflicting {
        s := s + {Hash(id)};
      }
      vb := vb[id := s];
    }

    /** The hash of `h` goes on `h` and on any other vertices. */
    method AddHash(h: Id, marked: set<Id>)
      requires Inv() && h in vb
      modifies this`vb
      ensures Inv() && vb.Keys == old(vb).Keys
      ensures forall t :: t in vb ==> vb[t] == if t == h || t in marked then old(vb)[t] + {Hash(h)} else old(vb)[t]
    {
      vb := map t | t in vb :: if t == h || t in marked then vb[t] + {Hash(h)} else vb[t];
    }

    /** The hash of `h` leaves any vertices: `h` has won, or is a block that is no longer voided. */
    method RemoveHash(h: Id, cleared: set<Id>)
      requires Inv() && h in vb && h !in soft && ExecutionFail !in vb[h]
      modifies this`vb
      ensures Inv() && vb.Keys == old(vb).Keys
      ensures forall t :: t in vb ==> vb[t] == if t in cleared then old(vb)[t] - {Hash(h)} else old(vb)[t]
    {
      vb := map t | t in vb :: if t in cleared then vb[t] - {Hash(h)} else vb[t];
    }

    /** The execution of `t` fails.  Only a call that is not voided is run. */
    method FailExecution(t: Id, marked: set<Id>)
      requires Inv() && t in vb && vb[t] == {}
      modifies this`vb
      ensures Inv() && vb.Keys == old(vb).Keys && vb[t] == {ExecutionFail, Hash(t)}
      ensures forall x :: x in vb && x != t ==> vb[x] == if x in marked then old(vb)[x] + {Hash(t)} else old(vb)[x]
    {
      vb := vb[t := {ExecutionFail}];
      vb := map x | x in vb :: if x == t || x in marked then vb[x] + {Hash(t)} else vb[x];
    }

    /** A reorg takes the failure back where it was the only reason. */
    method ClearFailure(t: Id, cleared: set<Id>)
      requires Inv() && t in vb && vb[t] == {ExecutionFail, Hash(t)}
      modifies this`vb
      ensures Inv() && vb.Keys == old(vb).Keys && vb[t] == {}
      ensures forall x :: x in vb && x != t ==> vb[x] == if x in cleared then old(vb)[x] - {Hash(t)} else old(vb)[x]
    {
      vb := map x | x in vb :: if x == t then {} else if x in cleared then vb[x] - {Hash(t)} else vb[x];
    }
  }
}
