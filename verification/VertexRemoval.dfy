/** Taking vertices out of the storage without leaving a reference to them. */
module VertexRemoval {
  import opened Graph
  import opened Traversal
  import opened Ledger
  import opened Mempool

  type Parents = map<Id, set<Id>>
  type Inputs = map<Id, set<TxInput>>

  function Get<K, V>(m: map<K, set<V>>, k: K): set<V> {
    if k in m then m[k] else {}
  }

  /** The references stored with the vertices agree: nothing points to a missing vertex, children
  mirror parents and spent outputs mirror inputs. */
  ghost predicate Linked(parents: Parents, inputs: Inputs, children: map<Id, set<Id>>, spent: map<TxInput, set<Id>>) {
    && parents.Keys == inputs.Keys
    && (forall v, p :: v in parents && p in parents[v] ==> p in parents)
    && (forall v, i :: v in inputs && i in inputs[v] ==> i.tx in parents)
    && (forall p, c {:trigger c in Get(children, p)} {:trigger p in parents[c]} :: p in parents ==> (c in Get(children, p) <==> c in parents && p in parents[c]))
    && (forall i: TxInput, c {:trigger c in Get(spent, i)} {:trigger i in inputs[c]} :: c in Get(spent, i) <==> c in inputs && i in inputs[c])
  }

  /** Every child and every spender of `v` is in `txs`. */
  ghost predicate NoGap(children: map<Id, set<Id>>, spent: map<TxInput, set<Id>>, txs: set<Id>, v: Id) {
    && Get(children, v) <= txs
    && (forall i: TxInput :: i.tx == v ==> Get(spent, i) <= txs)
  }

  /** `spent` after the hashes of `gone` left the outputs they spend. */
  ghost predicate Unspent(inputs: Inputs, spent: map<TxInput, set<Id>>, spent': map<TxInput, set<Id>>, gone: set<Id>) {
    forall i, c {:trigger c in Get(spent', i)} ::
      c in Get(spent', i) <==> c in Get(spent, i) && !(c in gone && c in inputs && i in inputs[c])
  }

  /** `children` after the hashes of `gone` left the parents that stay.  What a removed parent had
  stays stored, under the hash of the removed parent. */
  ghost predicate Unparented(parents: Parents, children: map<Id, set<Id>>, children': map<Id, set<Id>>, gone: set<Id>, txs: set<Id>) {
    forall p, c {:trigger c in Get(children', p)} ::
      c in Get(children', p) <==> c in Get(children, p) && !(c in gone && p !in txs && c in parents && p in parents[c])
  }

  lemma StillLinked(parents: Parents, inputs: Inputs, children: map<Id, set<Id>>, spent: map<TxInput, set<Id>>,
                    children': map<Id, set<Id>>, spent': map<TxInput, set<Id>>, txs: set<Id>)
    requires Linked(parents, inputs, children, spent) && txs <= parents.Keys
    requires forall v :: v in txs ==> NoGap(children, spent, txs, v)
    requires Unspent(inputs, spent, spent', txs) && Unparented(parents, children, children', txs, txs)
    ensures Linked(parents - txs, inputs - txs, children', spent')
  {
    var parents', inputs' := parents - txs, inputs - txs;
    forall v, p | v in parents' && p in parents'[v] ensures p in parents' {
      assert v in Get(children, p);
    }
    forall v, i: TxInput | v in inputs' && i in inputs'[v] ensures i.tx in parents' {
      assert v in Get(spent, i);
    }
  }

  /** The child entry of a removed vertex stays as it was: its children, all removed with it. */
  lemma EntryOfRemoved(parents: Parents, inputs: Inputs, children: map<Id, set<Id>>, spent: map<TxInput, set<Id>>,
                       children': map<Id, set<Id>>, txs: set<Id>, p: Id)
    requires Linked(parents, inputs, children, spent) && txs <= parents.Keys && p in txs
    requires NoGap(children, spent, txs, p) && Unparented(parents, children, children', txs, txs)
    ensures forall c :: c in Get(children', p) <==> c in txs && p in parents[c]
  {
    forall c ensures c in Get(children', p) <==> c in txs && p in parents[c] {
      assert c in Get(children, p) <==> c in parents && p in parents[c];
    }
  }

  /** Some vertex of `txs` is a parent of another. */
  ghost predicate Nested(parents: Parents, txs: set<Id>)
    requires txs <= parents.Keys
  {
    exists p, c :: p in txs && c in txs && p in parents[c]
  }

  /** A removal leaves a child entry naming a removed vertex exactly when a removed vertex is the
  parent of another one. */
  lemma EntriesLeft(parents: Parents, inputs: Inputs, children: map<Id, set<Id>>, spent: map<TxInput, set<Id>>,
                    children': map<Id, set<Id>>, txs: set<Id>)
    requires Linked(parents, inputs, children, spent) && txs <= parents.Keys
    requires forall v :: v in txs ==> NoGap(children, spent, txs, v)
    requires Unparented(parents, children, children', txs, txs)
    ensures (exists p, c :: p in parents && c in txs && c in Get(children', p)) <==> Nested(parents, txs)
  {
    if p, c :| p in parents && c in txs && c in Get(children', p) {
      assert c in Get(children, p) && p in txs;
    }
    if Nested(parents, txs) {
      var p, c :| p in txs && c in txs && p in parents[c];
      EntryOfRemoved(parents, inputs, children, spent, children', txs, p);
      assert p in parents && c in Get(children', p);
    }
  }

  lemma RemovedEntries(parents: Parents, inputs: Inputs, children: map<Id, set<Id>>, spent: map<TxInput, set<Id>>,
                       children': map<Id, set<Id>>, txs: seq<Id>)
    requires Linked(parents, inputs, children, spent) && Elements(txs) <= parents.Keys
    requires forall v :: v in Elements(txs) ==> NoGap(children, spent, Elements(txs), v)
    requires Unparented(parents, children, children', Elements(txs), Elements(txs))
    ensures (exists p, c :: p in parents && c in txs && c in Get(children', p)) <==> Nested(parents, Elements(txs))
    ensures forall p, c :: p in txs ==> (c in Get(children', p) <==> c in txs && p in parents[c])
  {
    hide Linked, NoGap, Unparented, Nested;
    EntriesLeft(parents, inputs, children, spent, children', Elements(txs));
    forall p, c | p in txs ensures c in Get(children', p) <==> c in txs && p in parents[c] {
      EntryOfRemoved(parents, inputs, children, spent, children', Elements(txs), p);
    }
  }

  /** The child entries once `id` is a child of `ps`. */
  function WithChild(children: map<Id, set<Id>>, ps: set<Id>, id: Id): map<Id, set<Id>> {
    map p | p in children.Keys + ps :: if p in ps then Get(children, p) + {id} else children[p]
  }

  /** A new vertex fits in exactly when no child entry is stored under its hash yet. */
  lemma LinkedAfterAdding(parents: Parents, inputs: Inputs, children: map<Id, set<Id>>, spent: map<TxInput, set<Id>>,
                          id: Id, ps: set<Id>, ins: set<TxInput>)
    requires Linked(parents, inputs, children, spent) && id !in parents && ps <= parents.Keys
    requires forall i :: i in ins ==> i.tx in parents
    ensures Linked(parents[id := ps], inputs[id := ins], WithChild(children, ps, id), WithSpender(spent, ins, id))
            <==> Get(children, id) == {}
  {
    var parents', inputs', children', spent' := parents[id := ps], inputs[id := ins], WithChild(children, ps, id), WithSpender(spent, ins, id);
    forall p, c ensures c in Get(children', p) <==> c in Get(children, p) || (c == id && p in ps) {
    }
    forall i: TxInput, c ensures c in Get(spent', i) <==> c in Get(spent, i) || (c == id && i in ins) {
    }
    forall c ensures !(c in parents' && id in parents'[c]) {
    }
    if Linked(parents', inputs', children', spent') {
      forall c ensures c !in Get(children, id) {
        assert c in Get(children', id) <==> c in parents' && id in parents'[c];
      }
    } else if Get(children, id) == {} {
      forall p, c | p in parents' ensures c in Get(children', p) <==> c in parents' && p in parents'[c] {
        assert p in parents ==> (c in Get(children, p) <==> c in parents && p in parents[c]);
      }
      forall i: TxInput, c ensures c in Get(spent', i) <==> c in inputs' && i in inputs'[c] {
        assert c in Get(spent, i) <==> c in inputs && i in inputs[c];
      }
      assert false;
    }
  }

  /** The spent outputs once `id` spends `ins`. */
  function WithSpender(spent: map<TxInput, set<Id>>, ins: set<TxInput>, id: Id): map<TxInput, set<Id>> {
    map i | i in spent.Keys + ins :: if i in ins then Get(spent, i) + {id} else spent[i]
  }

  lemma UnspentStep(inputs: Inputs, spent: map<TxInput, set<Id>>, spent1: map<TxInput, set<Id>>, gone: set<Id>, v: Id)
    requires Unspent(inputs, spent, spent1, gone) && v in inputs
    ensures Unspent(inputs, spent, Spend(spent1, inputs[v], v), gone + {v})
  {
    var spent2 := Spend(spent1, inputs[v], v);
    forall i, c ensures c in Get(spent2, i) <==> c in Get(spent1, i) && !(c == v && i in inputs[v]) {
    }
  }

  /** `v` leaves the outputs it spends. */
  function Spend(spent: map<TxInput, set<Id>>, ins: set<TxInput>, v: Id): map<TxInput, set<Id>> {
    map i | i in spent :: if i in ins then spent[i] - {v} else spent[i]
  }

  predicate HasGap(children: map<Id, set<Id>>, spent: map<TxInput, set<Id>>, txs: set<Id>, v: Id) {
    || !(Get(children, v) <= txs)
    || exists i :: i in spent && i.tx == v && !(spent[i] <= txs)
  }

  lemma GapsAreOld(inputs: Inputs, children: map<Id, set<Id>>, spent: map<TxInput, set<Id>>, spent1: map<TxInput, set<Id>>,
                   gone: set<Id>, txs: set<Id>, v: Id)
    requires Unspent(inputs, spent, spent1, gone) && gone <= txs
    ensures HasGap(children, spent1, txs, v) <==> !NoGap(children, spent, txs, v)
  {
    if !HasGap(children, spent1, txs, v) {
      forall i: TxInput, c | i.tx == v && c in Get(spent, i) ensures c in txs {
        assert c in Get(spent1, i) || c in gone;
      }
    }
    if NoGap(children, spent, txs, v) {
      forall i | i in spent1 && i.tx == v ensures spent1[i] <= txs {
        forall c | c in spent1[i] ensures c in txs {
          assert c in Get(spent1, i);
        }
      }
    }
  }

  /** The stored vertices with their references. */
  class VertexStore {
    var parents: Parents
    var inputs: Inputs
    var children: map<Id, set<Id>>
    var spentOutputs: map<TxInput, set<Id>>

    ghost predicate Valid()
      reads this
    {
      Linked(parents, inputs, children, spentOutputs)
    }

    constructor ()
      ensures Valid() && parents == map[] && children == map[]
    {
      parents, inputs, children, spentOutputs := map[], map[], map[], map[];
    }

    /** Stores a vertex and names it as a child of its parents and a spender of its inputs.  The links
    agree afterwards exactly when no child entry was left under its hash. */
    method AddVertex(id: Id, ps: set<Id>, ins: set<TxInput>)
      requires Valid() && id !in parents && ps <= parents.Keys && forall i :: i in ins ==> i.tx in parents
      modifies this
      ensures parents == old(parents)[id := ps] && inputs == old(inputs)[id := ins]
      ensures children == WithChild(old(children), ps, id) && spentOutputs == WithSpender(old(spentOutputs), ins, id)
      ensures Valid() <==> Get(old(children), id) == {}
    {
      hide Linked, WithChild, WithSpender;
      LinkedAfterAdding(parents, inputs, children, spentOutputs, id, ps, ins);
      parents, inputs := parents[id := ps], inputs[id := ins];
      children, spentOutputs := WithChild(children, ps, id), WithSpender(spentOutputs, ins, id);
    }

    /** Removes `txs`; refuses when a child or a spender of one of them would stay. */
    method RemoveTransactions(txs: seq<Id>) returns (ok: bool)
      requires Valid() && Elements(txs) <= parents.Keys
      modifies this
      ensures ok <==> forall v :: v in txs ==> NoGap(old(children), old(spentOutputs), Elements(txs), v)
      ensures ok ==> Valid() && parents == old(parents) - Elements(txs) && inputs == old(inputs) - Elements(txs)
      ensures ok ==> Unparented(old(parents), old(children), children, Elements(txs), Elements(txs))
      ensures ok ==> ((exists p, c :: p in old(parents) && c in txs && c in Get(children, p)) <==> Nested(old(parents), Elements(txs)))
      ensures ok ==> forall p, c :: p in txs ==> (c in Get(children, p) <==> c in txs && p in old(parents)[c])
    {
      hide Linked, NoGap, Spend, Nested;
      ghost var all := Elements(txs);
      var txset := set v | v in txs;
      assert txset == all;
      assert txs[..|txs|] == txs;
      var dangling: set<(Id, Id)> := {};
      ok := true;
      var k := 0;
      SameKeys(parents, inputs, children, spentOutputs);
      while k < |txs| && ok
        invariant 0 <= k <= |txs| && parents == old(parents) && inputs == old(inputs) && children == old(children)
        invariant Unspent(inputs, old(spentOutputs), spentOutputs, Elements(txs[..k]))
        invariant forall p, c :: (p, c) in dangling <==> c in Elements(txs[..k]) && p in parents[c] && p !in all
        invariant ok ==> forall j :: 0 <= j < k ==> NoGap(children, old(spentOutputs), all, txs[j])
        invariant !ok ==> exists v :: v in txs && !NoGap(children, old(spentOutputs), all, v)
      {
        var v := txs[k];
        assert v in Elements(txs) && Elements(txs[..k]) <= all;
        assert Elements(txs[..k + 1]) == Elements(txs[..k]) + {v};
        GapsAreOld(inputs, children, old(spentOutputs), spentOutputs, Elements(txs[..k]), all, v);
        ok := !HasGap(children, spentOutputs, txset, v);
        dangling := dangling + set p | p in parents[v] - txset :: (p, v);
        UnspentStep(inputs, old(spentOutputs), spentOutputs, Elements(txs[..k]), v);
        spentOutputs := Spend(spentOutputs, inputs[v], v);
        k := k + 1;
      }
      if ok {
        children := map p | p in children :: set c | c in children[p] && (p, c) !in dangling;
        StillLinked(parents, inputs, old(children), old(spentOutputs), children, spentOutputs, all);
        RemovedEntries(parents, inputs, old(children), old(spentOutputs), children, txs);
        parents, inputs := parents - txset, inputs - txset;
      }
    }
  }

  lemma SameKeys(parents: Parents, inputs: Inputs, children: map<Id, set<Id>>, spent: map<TxInput, set<Id>>)
    requires Linked(parents, inputs, children, spent)
    ensures parents.Keys == inputs.Keys
  {
  }

  /** Removes `txs` and stores one of them again, as it was: the links agree exactly when no child
  of it was removed. */
  method RemoveAndStoreAgain(store: VertexStore, txs: seq<Id>, p: Id) returns (ok: bool)
    requires store.Valid() && Elements(txs) <= store.parents.Keys == store.inputs.Keys && p in txs
    requires store.parents[p] !! Elements(txs) && forall i :: i in store.inputs[p] ==> i.tx !in txs
    modifies store
    ensures ok <==> forall v :: v in txs ==> NoGap(old(store.children), old(store.spentOutputs), Elements(txs), v)
    ensures ok ==> store.parents == (old(store.parents) - Elements(txs))[p := old(store.parents)[p]]
    ensures ok ==> forall c :: c in Get(store.children, p) <==> c in txs && p in old(store.parents)[c]
    ensures ok ==> (store.Valid() <==> forall c :: c in txs ==> p !in old(store.parents)[c])
  {
    hide NoGap, Unparented, Unspent, Nested;
    var ps, ins := store.parents[p], store.inputs[p];
    PointsToKnown(store.parents, store.inputs, store.children, store.spentOutputs, p);
    hide Linked;
    ok := store.RemoveTransactions(txs);
    if ok {
      assert ps <= store.parents.Keys;
      ghost var left := Get(store.children, p);
      store.AddVertex(p, ps, ins);
      assert Get(store.children, p) == left;
    }
  }

  lemma PointsToKnown(parents: Parents, inputs: Inputs, children: map<Id, set<Id>>, spent: map<TxInput, set<Id>>, v: Id)
    requires Linked(parents, inputs, children, spent) && v in parents
    ensures v in inputs && parents[v] <= parents.Keys && forall i :: i in inputs[v] ==> i.tx in parents
    ensures parents.Keys == inputs.Keys
    ensures forall p :: p in parents ==> forall c :: c in Get(children, p) <==> c in parents && p in parents[c]
  {
  }

  /** Two vertices in a row are removed and the older one is stored again: it comes back with a
  child that does not exist. */
  method RemovedParentComesBack(store: VertexStore)
    requires store.Valid() && store.parents == map[] && store.children == map[] && store.spentOutputs == map[]
    modifies store
    ensures store.parents == map[0 := {}, 1 := {0}] && Get(store.children, 1) == {2} && !store.Valid()
  {
    hide Unparented, Unspent, Nested, Linked;
    ThreeInARow(store);
    assert NoGap(store.children, store.spentOutputs, {1, 2}, 1) && NoGap(store.children, store.spentOutputs, {1, 2}, 2);
    ElementsOfTwo(1, 2);
    hide NoGap;
    var ok := RemoveAndStoreAgain(store, [1, 2], 1);
    assert forall c :: c in Get(store.children, 1) <==> c == 2;
  }

  lemma ElementsOfTwo(a: Id, b: Id)
    ensures Elements([a, b]) == {a, b}
  {
    assert forall x :: x in [a, b] <==> x == a || x == b;
  }

  method ThreeInARow(store: VertexStore)
    requires store.Valid() && store.parents == map[] && store.children == map[] && store.spentOutputs == map[]
    modifies store
    ensures store.Valid() && store.parents == map[0 := {}, 1 := {0}, 2 := {1}] && store.inputs == map[0 := {}, 1 := {}, 2 := {}]
    ensures store.children == map[0 := {1}, 1 := {2}] && store.spentOutputs == map[]
  {
    SameKeys(store.parents, store.inputs, store.children, store.spentOutputs);
    hide Linked, WithChild, WithSpender;
    NothingAdded(store.children, store.spentOutputs, 0);
    store.AddVertex(0, {}, {});
    FirstChild(store.children, 0, 1);
    NothingAdded(store.children, store.spentOutputs, 1);
    store.AddVertex(1, {0}, {});
    FirstChild(store.children, 1, 2);
    NothingAdded(store.children, store.spentOutputs, 2);
    store.AddVertex(2, {1}, {});
  }

  lemma FirstChild(children: map<Id, set<Id>>, p: Id, id: Id)
    requires p !in children
    ensures WithChild(children, {p}, id) == children[p := {id}]
  {
    assert Get(children, p) + {id} == {id};
  }

  lemma NothingAdded(children: map<Id, set<Id>>, spent: map<TxInput, set<Id>>, id: Id)
    ensures WithChild(children, {}, id) == children && WithSpender(spent, {}, id) == spent
  {
  }

  /** The walks follow the stored references. */
  ghost predicate Mirrors(d: Dag, parents: Parents, inputs: Inputs) {
    d.deps.Keys == parents.Keys == inputs.Keys &&
    forall v, p {:trigger p in d.deps[v]} :: v in d.deps ==> (p in d.deps[v] <==> p in parents[v] || exists i :: i in inputs[v] && i.tx == p)
  }

  /** What the search returns leaves no gap, so its removal is never refused. */
  lemma SearchLeavesNoGap(view: View, passes: Id -> bool, tips: set<Id>, parents: Parents, inputs: Inputs,
                          children: map<Id, set<Id>>, spent: map<TxInput, set<Id>>, v: Id)
    requires view.Valid() && Mirrors(view.d, parents, inputs) && Linked(parents, inputs, children, spent)
    requires v in Removable(view, passes, tips)
    ensures NoGap(children, spent, Removable(view, passes, tips), v)
  {
    hide Removable;
    assert v in view.d.deps by { RemovableKnown(view, passes, tips, v); }
    forall c | c in Get(children, v) ensures c in Removable(view, passes, tips) {
      assert v in parents[c];
      assert v in view.d.deps[c];
      RemovableIsClosed(view, passes, tips, v, c);
    }
    forall i: TxInput, c | i.tx == v && c in Get(spent, i) ensures c in Removable(view, passes, tips) {
      assert i in inputs[c];
      assert v in view.d.deps[c];
      RemovableIsClosed(view, passes, tips, v, c);
    }
  }

  lemma RemovableKnown(view: View, passes: Id -> bool, tips: set<Id>, v: Id)
    requires view.Valid() && v in Removable(view, passes, tips)
    ensures v in view.d.deps
  {
  }

  /** The clean-up: search and remove.  It always succeeds, takes out exactly `Removable` and leaves
  the remaining references linked. */
  method CleanMempool(store: VertexStore, view: View, passes: Id -> bool, tips: seq<Id>) returns (removed: seq<Id>, ok: bool)
    requires store.Valid() && view.Valid() && Mirrors(view.d, store.parents, store.inputs) && Elements(tips) <= view.Mempool()
    modifies store
    ensures ok && store.Valid() && Elements(removed) == Removable(view, passes, Elements(tips)) && NewestFirst(view.d, removed)
    ensures store.parents == old(store.parents) - Elements(removed) && store.inputs == old(store.inputs) - Elements(removed)
    ensures forall p, c :: p in removed && c in removed ==> p in old(store.parents) && c in old(store.parents)
    ensures forall p, c :: p in removed ==> (c in Get(store.children, p) <==> c in removed && p in old(store.parents)[c])
  {
    hide Removable, Linked, NoGap;
    removed := ComputeInvalid(view, passes, tips);
    ghost var gone := Removable(view, passes, Elements(tips));
    forall v | v in Elements(removed) ensures v in store.parents && NoGap(store.children, store.spentOutputs, gone, v) {
      RemovableKnown(view, passes, Elements(tips), v);
      SearchLeavesNoGap(view, passes, Elements(tips), store.parents, store.inputs, store.children, store.spentOutputs, v);
    }
    if |removed| > 0 {
      ok := store.RemoveTransactions(removed);
    } else {
      ok := true;
      assert store.parents - {} == store.parents && store.inputs - {} == store.inputs;
    }
  }
}
