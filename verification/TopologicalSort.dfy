/** The order in which the DAG builder creates its nodes. */
module TopologicalSort {
  import opened Wrappers

  type Name = string

  /** What a node depends on: its parents, the nodes whose outputs it spends, and plain ordering. */
  datatype Node = Node(parents: set<Name>, inputs: set<(Name, nat)>, deps: set<Name>) {
    function AllDependencies(): set<Name> {
      parents + (set i | i in inputs :: i.0) + deps
    }
  }

  type Dependencies = map<Name, set<Name>>

  function DependenciesOf(nodes: map<Name, Node>): Dependencies {
    map n | n in nodes :: nodes[n].AllDependencies()
  }

  /** A ranking in which every node is above all its dependencies, which are nodes too. */
  ghost predicate IsRank(deps: Dependencies, rank: map<Name, nat>) {
    rank.Keys == deps.Keys && forall n, d :: n in deps && d in deps[n] ==> d in deps && rank[d] < rank[n]
  }

  /** No cycle and no unknown dependency. */
  ghost predicate Acyclic(deps: Dependencies) {
    exists rank: map<Name, nat> :: IsRank(deps, rank)
  }

  ghost function Elements(s: seq<Name>): set<Name> {
    set n | n in s
  }

  /** Nodes once each, every one after all its dependencies. */
  ghost predicate DependenciesFirst(deps: Dependencies, order: seq<Name>) {
    && Distinct(order)
    && forall i :: 0 <= i < |order| ==> order[i] in deps && deps[order[i]] <= Elements(order[..i])
  }

  /** `direct` holds what each blocked node still waits for. */
  ghost predicate Blocked(deps: Dependencies, direct: Dependencies, seen: set<Name>, n: Name) {
    n in deps && n !in seen && !(deps[n] <= seen) ==> n in direct && direct[n] == deps[n] - seen
  }

  ghost predicate Ready(deps: Dependencies, seen: set<Name>, n: Name) {
    n in deps && n !in seen && deps[n] <= seen
  }

  lemma Appended(s: seq<Name>, n: Name)
    requires Distinct(s) && n !in s
    ensures Distinct(s + [n]) && Elements(s + [n]) == Elements(s) + {n}
  {
  }

  /** The first loop: the dependencies of every node, their reverse, and the nodes that have none. */
  method Prepare(nodes: map<Name, Node>, names: seq<Name>) returns (direct: Dependencies, rev: Dependencies, candidates: seq<Name>)
    requires Distinct(names) && Elements(names) == nodes.Keys
    ensures direct == DependenciesOf(nodes)
    ensures forall d, n :: d in rev && n in rev[d] <==> n in direct && d in direct[n]
    ensures Distinct(candidates) && forall n :: n in candidates <==> Ready(direct, {}, n)
  {
    hide Node.AllDependencies;
    direct, rev, candidates := map[], map[], [];
    var k := 0;
    while k < |names|
      invariant 0 <= k <= |names| && direct.Keys == Elements(names[..k])
      invariant forall n :: n in direct ==> n in nodes && direct[n] == nodes[n].AllDependencies()
      invariant forall d, n {:trigger n in rev[d]} {:trigger d in direct[n]} :: d in rev && n in rev[d] <==> n in direct && d in direct[n]
      invariant Distinct(candidates) && forall n :: n in candidates <==> n in direct && direct[n] == {}
    {
      var name := names[k];
      assert name in Elements(names) && name !in names[..k];
      assert Elements(names[..k + 1]) == Elements(names[..k]) + {name};
      var deps := nodes[name].AllDependencies();
      direct := direct[name := deps];
      rev := AddReverse(rev, deps, name);
      if deps == {} {
        Appended(candidates, name);
        candidates := candidates + [name];
      }
      k := k + 1;
    }
    assert names[..k] == names;
  }

  function AddReverse(rev: Dependencies, deps: set<Name>, name: Name): (r: Dependencies)
    ensures forall d, n {:trigger n in r[d]} :: d in r && n in r[d] <==> (d in rev && n in rev[d]) || (d in deps && n == name)
  {
    map d | d in rev.Keys + deps :: (if d in rev then rev[d] else {}) + (if d in deps then {name} else {})
  }

  /** The inner loop: the node `name` is done, so its dependents wait for one node less. */
  method Release(ghost deps: Dependencies, direct: Dependencies, candidates: seq<Name>, dependents: set<Name>, name: Name, ghost seen: set<Name>)
    returns (direct': Dependencies, candidates': seq<Name>)
    requires Ready(deps, seen, name) && dependents == set n | n in deps && name in deps[n]
    requires forall n :: Blocked(deps, direct, seen, n)
    requires Distinct(candidates) && forall n :: n in candidates <==> Ready(deps, seen, n) && n != name
    requires forall n :: n in deps && n in seen ==> name !in deps[n]
    ensures forall n :: Blocked(deps, direct', seen + {name}, n)
    ensures Distinct(candidates') && forall n :: n in candidates' <==> Ready(deps, seen + {name}, n)
  {
    direct', candidates' := direct, candidates;
    forall n ensures Blocked(deps, direct, if n in dependents then seen else seen + {name}, n) {
      assert Blocked(deps, direct, seen, n);
      assert n in deps && n !in dependents ==> deps[n] - seen == deps[n] - (seen + {name});
    }
    var rest := dependents;
    while rest != {}
      invariant rest <= dependents
      invariant forall n :: Blocked(deps, direct', if n in rest then seen else seen + {name}, n)
      invariant Distinct(candidates')
      invariant forall n :: n in candidates' <==> n != name && Ready(deps, if n in rest then seen else seen + {name}, n)
      decreases rest
    {
      var d :| d in rest;
      assert Blocked(deps, direct', seen, d);
      rest := rest - {d};
      direct' := direct'[d := direct'[d] - {name}];
      assert direct'[d] == deps[d] - (seen + {name});
      if direct'[d] == {} {
        Appended(candidates', d);
        candidates', direct' := candidates' + [d], direct' - {d};
      }
    }
  }

  lemma OrderStep(deps: Dependencies, order: seq<Name>, name: Name)
    requires DependenciesFirst(deps, order) && Ready(deps, Elements(order), name)
    ensures DependenciesFirst(deps, order + [name]) && Elements(order + [name]) == Elements(order) + {name}
  {
    var next := order + [name];
    forall i | 0 <= i < |next| ensures next[i] in deps && deps[next[i]] <= Elements(next[..i]) {
      if i < |order| {
        assert next[..i] == order[..i];
      } else {
        assert next[..i] == order;
      }
    }
  }

  /** When every node left waits for another, no ranking exists. */
  lemma {:induction false} StuckIsCyclic(deps: Dependencies, seen: set<Name>, rank: map<Name, nat>, n: Name)
    requires n in deps && n !in seen && IsRank(deps, rank)
    requires forall m :: m in deps && m !in seen ==> !(deps[m] <= seen)
    ensures false
    decreases rank[n]
  {
    var d :| d in deps[n] && d !in seen;
    StuckIsCyclic(deps, seen, rank, d);
  }

  lemma NoRank(deps: Dependencies, seen: set<Name>, n: Name)
    requires n in deps && n !in seen && forall m :: m in deps && m !in seen ==> !(deps[m] <= seen)
    ensures !Acyclic(deps)
  {
    if rank: map<Name, nat> :| IsRank(deps, rank) {
      StuckIsCyclic(deps, seen, rank, n);
    }
  }

  lemma NothingYet(deps: Dependencies, nodes: map<Name, Node>)
    requires deps == DependenciesOf(nodes)
    ensures deps.Keys == nodes.Keys && DependenciesFirst(deps, []) && Elements([]) == {}
  {
  }

  lemma OrderIsRank(deps: Dependencies, order: seq<Name>)
    requires DependenciesFirst(deps, order) && Elements(order) == deps.Keys
    ensures Acyclic(deps)
  {
    var rank := map n | n in deps :: Position(order, n);
    forall n, d | n in deps && d in deps[n] ensures d in deps && rank[d] < rank[n] {
      var i := Position(order, n);
      assert d in Elements(order[..i]);
      assert d in order[..i] && d in Elements(order);
    }
    assert IsRank(deps, rank);
  }

  ghost function Position(order: seq<Name>, n: Name): (i: nat)
    requires n in order && Distinct(order)
    ensures i < |order| && order[i] == n
  {
    var i :| 0 <= i < |order| && order[i] == n;
    i
  }

  /** Nodes seen so far depend on seen nodes only. */
  lemma SeenAreDone(deps: Dependencies, order: seq<Name>, n: Name)
    requires DependenciesFirst(deps, order) && n in order
    ensures n in deps && deps[n] <= Elements(order)
  {
    var i :| 0 <= i < |order| && order[i] == n;
    assert Elements(order[..i]) <= Elements(order);
  }

  lemma SeenNeedNot(deps: Dependencies, order: seq<Name>, name: Name)
    requires DependenciesFirst(deps, order) && name !in Elements(order)
    ensures forall n :: n in Elements(order) && n in deps ==> name !in deps[n]
  {
    forall n | n in Elements(order) && n in deps ensures name !in deps[n] {
      SeenAreDone(deps, order, n);
    }
  }

  /** No candidate is left before every node was seen: the dependencies have a cycle. */
  lemma NothingReady(deps: Dependencies, names: seq<Name>, order: seq<Name>, candidates: seq<Name>)
    requires Distinct(names) && Elements(names) == deps.Keys && DependenciesFirst(deps, order) && |order| < |names|
    requires candidates == [] && forall n :: n in candidates <==> Ready(deps, Elements(order), n)
    ensures !Acyclic(deps)
  {
    NotAllSeen(deps, names, order);
    var n :| n in deps && n !in Elements(order);
    forall m | m in deps && m !in Elements(order) ensures !(deps[m] <= Elements(order)) {
      assert m !in candidates;
    }
    NoRank(deps, Elements(order), n);
  }

  /** The parents of the node, the nodes it spends from and those it names all come in `before`. */
  ghost predicate After(node: Node, before: seq<Name>) {
    && (forall p :: p in node.parents ==> p in before)
    && (forall i :: i in node.inputs ==> i.0 in before)
    && (forall d :: d in node.deps ==> d in before)
  }

  /** A ranking with every node above its parents, what it spends from and what it names. */
  ghost predicate RanksNodes(nodes: map<Name, Node>, rank: map<Name, nat>) {
    rank.Keys == nodes.Keys && forall n :: n in nodes ==> RanksNode(nodes[n], rank, rank[n])
  }

  lemma DependsOn(nodes: map<Name, Node>, n: Name)
    requires n in nodes
    ensures forall d :: d in DependenciesOf(nodes)[n] <==>
                          d in nodes[n].parents || d in nodes[n].deps || exists i :: i in nodes[n].inputs && i.0 == d
  {
  }

  lemma RanksAre(nodes: map<Name, Node>)
    ensures Acyclic(DependenciesOf(nodes)) <==> exists rank :: RanksNodes(nodes, rank)
  {
    if rank: map<Name, nat> :| IsRank(DependenciesOf(nodes), rank) {
      RankOfNodes(nodes, rank);
    }
    if rank: map<Name, nat> :| RanksNodes(nodes, rank) {
      NodesRank(nodes, rank);
    }
  }

  ghost predicate RanksNode(node: Node, rank: map<Name, nat>, r: nat) {
    && (forall p :: p in node.parents ==> p in rank && rank[p] < r)
    && (forall i :: i in node.inputs ==> i.0 in rank && rank[i.0] < r)
    && (forall d :: d in node.deps ==> d in rank && rank[d] < r)
  }

  lemma RankOfNode(node: Node, rank: map<Name, nat>, r: nat)
    requires forall d :: d in node.AllDependencies() ==> d in rank && rank[d] < r
    ensures RanksNode(node, rank, r)
  {
    forall i | i in node.inputs ensures i.0 in rank && rank[i.0] < r {
      assert i.0 in node.AllDependencies();
    }
  }

  lemma RankOfNodes(nodes: map<Name, Node>, rank: map<Name, nat>)
    requires IsRank(DependenciesOf(nodes), rank)
    ensures RanksNodes(nodes, rank)
  {
    var deps := DependenciesOf(nodes);
    forall n | n in nodes ensures RanksNode(nodes[n], rank, rank[n]) {
      assert n in deps && deps[n] == nodes[n].AllDependencies();
      RankOfNode(nodes[n], rank, rank[n]);
    }
  }

  lemma NodesRank(nodes: map<Name, Node>, rank: map<Name, nat>)
    requires RanksNodes(nodes, rank)
    ensures IsRank(DependenciesOf(nodes), rank)
  {
    var deps := DependenciesOf(nodes);
    assert deps.Keys == nodes.Keys;
    forall n, d | n in deps && d in deps[n] ensures d in deps && rank[d] < rank[n] {
      DependsOn(nodes, n);
      assert RanksNode(nodes[n], rank, rank[n]);
      hide DependenciesOf;
      if d !in nodes[n].parents && d !in nodes[n].deps {
        var i :| i in nodes[n].inputs && i.0 == d;
      }
    }
  }

  lemma FirstMeansAfter(nodes: map<Name, Node>, order: seq<Name>)
    requires DependenciesFirst(DependenciesOf(nodes), order)
    ensures forall i :: 0 <= i < |order| ==> order[i] in nodes && After(nodes[order[i]], order[..i])
  {
    forall k | 0 <= k < |order| ensures order[k] in nodes && After(nodes[order[k]], order[..k]) {
      var node, before := nodes[order[k]], Elements(order[..k]);
      assert node.AllDependencies() <= before;
      forall i | i in node.inputs ensures i.0 in order[..k] {
        assert i.0 in node.AllDependencies();
      }
      forall p | p in node.parents + node.deps ensures p in order[..k] {
        assert p in node.AllDependencies();
      }
    }
  }

  /** The sort.  `ok` is false when it raises the cycle error; `order` is what was yielded until then. */
  method Sort(nodes: map<Name, Node>, names: seq<Name>) returns (order: seq<Name>, ok: bool)
    requires Distinct(names) && Elements(names) == nodes.Keys
    ensures ok <==> Acyclic(DependenciesOf(nodes))
    ensures DependenciesFirst(DependenciesOf(nodes), order)
    ensures ok ==> Elements(order) == nodes.Keys && |order| == |names|
    ensures forall i :: 0 <= i < |order| ==> order[i] in nodes && After(nodes[order[i]], order[..i])
    ensures ok <==> exists rank :: RanksNodes(nodes, rank)
  {
    order, ok := SortNames(nodes, names);
    FirstMeansAfter(nodes, order);
    RanksAre(nodes);
  }

  method SortNames(nodes: map<Name, Node>, names: seq<Name>) returns (order: seq<Name>, ok: bool)
    requires Distinct(names) && Elements(names) == nodes.Keys
    ensures ok <==> Acyclic(DependenciesOf(nodes))
    ensures DependenciesFirst(DependenciesOf(nodes), order)
    ensures ok ==> Elements(order) == nodes.Keys && |order| == |names|
  {
    hide DependenciesOf, DependenciesFirst, Acyclic;
    ghost var deps := DependenciesOf(nodes);
    var direct, rev, candidates := Prepare(nodes, names);
    order, ok := [], true;
    NothingYet(deps, nodes);
    var k := 0;
    while k < |names|
      invariant 0 <= k == |order| <= |names|
      invariant DependenciesFirst(deps, order)
      invariant forall n :: Blocked(deps, direct, Elements(order), n)
      invariant Distinct(candidates) && forall n :: n in candidates <==> Ready(deps, Elements(order), n)
    {
      if candidates == [] {
        ok := false;
        NothingReady(deps, names, order, candidates);
        return;
      }
      var name := candidates[|candidates| - 1];
      ghost var all, seen := candidates, Elements(order);
      candidates := candidates[..|candidates| - 1];
      assert all == candidates + [name] && name in all;
      SeenNeedNot(deps, order, name);
      OrderStep(deps, order, name);
      direct, candidates := Release(deps, direct, candidates, if name in rev then rev[name] else {}, name, seen);
      order, k := order + [name], k + 1;
    }
    AllSeen(deps, names, order);
    OrderIsRank(deps, order);
  }

  lemma {:induction false} DistinctCount(s: seq<Name>)
    requires Distinct(s)
    ensures |Elements(s)| == |s|
  {
    if |s| > 0 {
      var n := |s| - 1;
      DistinctCount(s[..n]);
      assert Elements(s) == Elements(s[..n]) + {s[n]};
    } else {
      assert Elements(s) == {};
    }
  }

  lemma OrderIsDistinct(deps: Dependencies, order: seq<Name>)
    requires DependenciesFirst(deps, order)
    ensures |Elements(order)| == |order| && Elements(order) <= deps.Keys
  {
    DistinctCount(order);
  }

  lemma NotAllSeen(deps: Dependencies, names: seq<Name>, order: seq<Name>)
    requires Distinct(names) && Elements(names) == deps.Keys && DependenciesFirst(deps, order) && |order| < |names|
    ensures exists n :: n in deps && n !in Elements(order)
  {
    DistinctCount(names);
    OrderIsDistinct(deps, order);
    assert Elements(order) != deps.Keys;
  }

  lemma AllSeen(deps: Dependencies, names: seq<Name>, order: seq<Name>)
    requires Distinct(names) && Elements(names) == deps.Keys && DependenciesFirst(deps, order) && |order| == |names|
    ensures Elements(order) == deps.Keys
  {
    DistinctCount(names);
    OrderIsDistinct(deps, order);
    SubsetOfSameSize(Elements(order), deps.Keys);
  }

  lemma SubsetOfSameSize(a: set<Name>, b: set<Name>)
    requires a <= b && |a| == |b|
    ensures a == b
  {
    assert b == a + (b - a);
  }
}
