/** The balance-filling pass of the DAG builder. */
module Filler {
  import opened Wrappers
  import opened FillerSlots
  import opened FillerSteps

  function Unit(): Slot {
    Filled(Output(1, Htr))
  }

  /** A node with one native unit in every empty slot, and in one output when it had neither inputs
  nor outputs and is no block. */
  function Slotted(node: Node): Node {
    if node.inputs == [] && node.outputs == [] then
      if node.kind == Block then node else node.(outputs := [Unit()])
    else
      node.(outputs := seq(|node.outputs|, k requires 0 <= k < |node.outputs| => if node.outputs[k].Empty? then Unit() else node.outputs[k]))
  }

  /** The nodes after the first loop. */
  function Prepared(nodes: Nodes): Nodes {
    map n | n in nodes :: if n == Dummy || nodes[n].kind == Genesis then nodes[n] else Slotted(nodes[n])
  }

  /** Gives every empty slot one native unit, and a node without inputs and outputs one output. */
  method FillSlots(node: Node) returns (node': Node, ok: bool)
    ensures ok <==> forall s :: s in node.outputs ==> s.Empty? || s.out.amount > 0
    ensures node'.kind == node.kind && node'.inputs == node.inputs && node'.balances == node.balances && |node.outputs| <= |node'.outputs|
    ensures ok ==> forall s :: s in node'.outputs ==> s.Filled?
    ensures forall k :: 0 <= k < |node'.outputs| ==> (k < |node.outputs| && node'.outputs[k] == node.outputs[k]) || node'.outputs[k] == Filled(Output(1, Htr))
    ensures forall k :: 0 <= k < |node.outputs| && node.outputs[k].Filled? ==> node'.outputs[k] == node.outputs[k]
    ensures ok ==> node' == Slotted(node)
    ensures ok && node.inputs == [] && node.outputs == [] && node.kind != Block ==> node'.outputs == [Filled(Output(1, Htr))]
    ensures ok && node.kind == Block && node.outputs == [] ==> node' == node
  {
    var outputs := node.outputs;
    node', ok := node, true;
    if node.inputs == [] && outputs == [] {
      if node.kind == Block {
        return;
      }
      outputs := [Filled(Output(1, Htr))];
    }
    ghost var start := outputs;
    var k := 0;
    while k < |outputs|
      invariant 0 <= k <= |outputs| == |start|
      invariant forall j :: 0 <= j < k ==> outputs[j] == if start[j].Empty? then Filled(Output(1, Htr)) else start[j]
      invariant forall j :: k <= j < |start| ==> outputs[j] == start[j]
      invariant forall j :: 0 <= j < k ==> start[j].Empty? || start[j].out.amount > 0
    {
      if outputs[k].Empty? {
        outputs := outputs[k := Filled(Output(1, Htr))];
      } else if outputs[k].out.amount == 0 {
        assert start[k] in node.outputs;
        ok := false;
        return;
      }
      k := k + 1;
    }
    node' := node.(outputs := outputs);
  }

  ghost predicate Ordinary(nodes: Nodes, n: Name) {
    n in nodes && n != Dummy && nodes[n].kind != Genesis
  }

  /** No output was set to amount zero. */
  ghost predicate Positive(nodes: Nodes, n: Name) {
    Ordinary(nodes, n) ==> forall s :: s in nodes[n].outputs ==> s.Empty? || s.out.amount > 0
  }

  ghost predicate SlotsFull(nodes: Nodes, n: Name) {
    Ordinary(nodes, n) ==> forall s :: s in nodes[n].outputs ==> s.Filled?
  }

  /** A node that had neither inputs nor outputs has one native unit. */
  ghost predicate GotUnit(nodes: Nodes, later: Nodes, n: Name)
    requires n in nodes
  {
    Ordinary(nodes, n) && nodes[n].kind != Block && nodes[n].inputs == [] && nodes[n].outputs == [] ==>
      SlotAt(later, Input(n, 0)) == Filled(Output(1, Htr))
  }

  /** The first loop of the pass. */
  method FillAllSlots(nodes: Nodes, names: seq<Name>) returns (nodes': Nodes, ok: bool)
    requires Declared(nodes) && Distinct(names) && forall n :: n in names ==> n in nodes
    ensures ok <==> forall k :: 0 <= k < |names| ==> Positive(nodes, names[k])
    ensures ok ==> Declared(nodes') && Grown(nodes, nodes', nodes.Keys)
    ensures ok ==> forall k :: 0 <= k < |names| ==> SlotsFull(nodes', names[k])
    ensures ok ==> nodes'.Keys == nodes.Keys && forall k :: 0 <= k < |names| ==> nodes'[names[k]] == Prepared(nodes)[names[k]]
    ensures ok ==> forall k :: 0 <= k < |names| ==> GotUnit(nodes, nodes', names[k])
    ensures ok ==> forall k :: 0 <= k < |names| && nodes[names[k]].kind == Block && nodes[names[k]].outputs == [] ==> nodes'[names[k]] == nodes[names[k]]
    ensures DummyClean(nodes) ==> DummyClean(nodes')
  {
    hide Balance, Mentioned, IsToken, Grown, Prepared, Slotted;
    nodes', ok := nodes, true;
    GrownNot(nodes, nodes.Keys);
    PreparedKeys(nodes);
    var k := 0;
    while k < |names|
      invariant 0 <= k <= |names| && nodes'.Keys == nodes.Keys && Declared(nodes') && Grown(nodes, nodes', nodes.Keys) && ok
      invariant nodes'[Dummy] == nodes[Dummy] && forall j :: 0 <= j < k ==> nodes'[names[j]] == Prepared(nodes)[names[j]]
      invariant forall j :: k <= j < |names| ==> nodes'[names[j]] == nodes[names[j]]
      invariant forall j :: 0 <= j < k ==> Positive(nodes, names[j]) && SlotsFull(nodes', names[j]) && GotUnit(nodes, nodes', names[j])
      invariant forall j :: 0 <= j < k && nodes[names[j]].kind == Block && nodes[names[j]].outputs == [] ==> nodes'[names[j]] == nodes[names[j]]
    {
      var n := names[k];
      assert n in nodes;
      PreparedAt(nodes, n);
      if n != Dummy && nodes'[n].kind != Genesis {
        var node, fine := FillSlots(nodes'[n]);
        if !fine {
          ok := false;
          return;
        }
        SlotsGrown(nodes', n, node);
        HtrIsToken(nodes');
        DeclaredGrown(nodes', nodes'[n := node], {n}, Htr);
        GrownTwice(nodes, nodes', nodes'[n := node], nodes.Keys, {n});
        assert nodes.Keys + {n} == nodes.Keys;
        nodes' := nodes'[n := node];
      }
      k := k + 1;
    }
  }

  lemma PreparedKeys(nodes: Nodes)
    ensures Prepared(nodes).Keys == nodes.Keys
  {
  }

  lemma PreparedAt(nodes: Nodes, n: Name)
    requires n in nodes
    ensures n in Prepared(nodes) && Prepared(nodes)[n] == if n == Dummy || nodes[n].kind == Genesis then nodes[n] else Slotted(nodes[n])
  {
  }

  lemma SlotsGrown(nodes: Nodes, n: Name, node: Node)
    requires n in nodes && node.kind == nodes[n].kind && node.balances == nodes[n].balances && |nodes[n].outputs| <= |node.outputs|
    requires forall k :: 0 <= k < |node.outputs| ==>
                           (k < |nodes[n].outputs| && node.outputs[k] == nodes[n].outputs[k]) || node.outputs[k] == Filled(Output(1, Htr))
    requires forall k :: 0 <= k < |nodes[n].outputs| && nodes[n].outputs[k].Filled? ==> node.outputs[k] == nodes[n].outputs[k]
    ensures Grown(nodes, nodes[n := node], {n}) && OnlyNew(nodes, nodes[n := node], Htr)
  {
  }

  /** What the second loop needs of a node: filled slots, and a block with at most one output, native
  and not above the reward. */
  ghost predicate Fine(nodes: Nodes, n: Name, reward: nat)
    requires n in nodes
  {
    && (Plain(nodes, n) ==> AllFilled(nodes, nodes[n]))
    && (nodes[n].kind == Block ==>
          && nodes[n].inputs == [] && |nodes[n].outputs| <= 1 && AllFilled(nodes, nodes[n])
          && Tokens(nodes, n) <= {Htr} && 0 <= Balance(nodes, nodes[n], Htr) <= reward)
  }

  lemma StaysFine(nodes: Nodes, later: Nodes, c: Name, n: Name, reward: nat)
    requires Declared(nodes) && Grown(nodes, later, Issuers(nodes) + {c}) && n in nodes && n != c && Fine(nodes, n, reward)
    ensures n in later && Fine(later, n, reward)
  {
    hide Mentioned, OutSum;
    if n !in Issuers(nodes) && (Plain(nodes, n) || nodes[n].kind == Block) {
      BalanceGrown(nodes, later, Issuers(nodes) + {c}, n, Htr);
      if nodes[n].kind == Block {
        NoInputTokens(nodes, later, n);
      }
    }
  }

  lemma NoInputTokens(nodes: Nodes, later: Nodes, n: Name)
    requires n in nodes && n in later && later[n] == nodes[n] && nodes[n].inputs == []
    ensures Tokens(later, n) == Tokens(nodes, n)
  {
    SumsOfNothing(nodes);
    SumsOfNothing(later);
  }

  /** Token nodes stay, and issuers gave exactly what `n` had to take. */
  ghost predicate Took(nodes: Nodes, nodes': Nodes, n: Name)
    requires n in nodes && nodes.Keys == nodes'.Keys
  {
    && TokensStay(nodes, nodes')
    && forall u :: IsToken(nodes, u) ==> Issuer(u) in nodes && Issued(nodes', u) == Issued(nodes, u) + Draw(nodes, n, u)
  }

  /** What the first `k` nodes of `order` had to take, issuers gave; the others still have to take it. */
  ghost predicate Supplied(nodes: Nodes, nodes': Nodes, order: seq<Name>, k: nat)
    requires k <= |order| && nodes.Keys == nodes'.Keys && forall n :: n in order ==> n in nodes
  {
    && TokensStay(nodes, nodes') && (forall u :: IsToken(nodes, u) ==> Issuer(u) in nodes)
    && (forall j, u :: k <= j < |order| ==> Draw(nodes', order[j], u) == Draw(nodes, order[j], u))
    && (forall u :: IsToken(nodes, u) ==> Issued(nodes', u) == Issued(nodes, u) + Drawn(nodes, order[..k], u))
  }

  lemma DrawStays(nodes: Nodes, later: Nodes, c: Name, n: Name, reward: nat)
    requires Declared(nodes) && Grown(nodes, later, Issuers(nodes) + {c}) && n in nodes && n != c && Fine(nodes, n, reward)
    ensures n in later && forall u :: Draw(later, n, u) == Draw(nodes, n, u)
  {
    hide Mentioned, OutSum, Balance;
    if Plain(nodes, n) {
      forall u ensures Balance(later, later[n], u) == Balance(nodes, nodes[n], u) {
        BalanceGrown(nodes, later, Issuers(nodes) + {c}, n, u);
      }
    }
  }

  lemma DrawnNext(nodes: Nodes, order: seq<Name>, k: nat, u: Token)
    requires k < |order| && forall n :: n in order ==> n in nodes
    ensures Drawn(nodes, order[..k + 1], u) == Drawn(nodes, order[..k], u) + Draw(nodes, order[k], u)
  {
    assert order[..k + 1][..k] == order[..k];
  }

  lemma SuppliedNext(nodes: Nodes, before: Nodes, nodes': Nodes, order: seq<Name>, k: nat, reward: nat)
    requires k < |order| && nodes.Keys == before.Keys == nodes'.Keys && Distinct(order) && forall n :: n in order ==> n in nodes
    requires Supplied(nodes, before, order, k) && Took(before, nodes', order[k])
    requires Declared(before) && Grown(nodes, before, nodes.Keys) && Grown(before, nodes', Issuers(before) + {order[k]})
    requires forall j :: k <= j < |order| ==> Fine(before, order[j], reward)
    ensures Supplied(nodes, nodes', order, k + 1)
  {
    hide Declared, Grown, TokensStay, Fine, Draw, Issued, IsToken, Issuers;
    KindsStay(nodes, before, nodes.Keys);
    TokensStayTwice(nodes, before, nodes');
    forall j, u | k + 1 <= j < |order| ensures Draw(nodes', order[j], u) == Draw(nodes, order[j], u) {
      DrawStays(before, nodes', order[k], order[j], reward);
    }
    forall u | IsToken(nodes, u) ensures Issued(nodes', u) == Issued(nodes, u) + Drawn(nodes, order[..k + 1], u) {
      assert IsToken(before, u);
      DrawnNext(nodes, order, k, u);
    }
  }

  lemma SuppliedStart(nodes: Nodes, order: seq<Name>)
    requires Declared(nodes) && forall n :: n in order ==> n in nodes
    ensures Supplied(nodes, nodes, order, 0)
  {
    hide Draw, Issued;
    TokensStayNow(nodes);
    assert order[..0] == [];
  }

  lemma TokenIssuers(nodes: Nodes)
    requires Declared(nodes)
    ensures forall u :: IsToken(nodes, u) ==> Issuer(u) in nodes
  {
  }

  /** One step of the second loop. */
  method FillNode(nodes: Nodes, n: Name, reward: nat) returns (nodes': Nodes, ok: bool)
    requires Declared(nodes) && n in nodes
    ensures Fine(nodes, n, reward) && (nodes[n].kind == Block ==> n != Dummy) ==> ok
    ensures ok ==> Declared(nodes') && Grown(nodes, nodes', Issuers(nodes) + {n}) && n in nodes' && Settled(nodes', n, reward)
    ensures DummyClean(nodes) ==> DummyClean(nodes')
    ensures ok ==> nodes'.Keys == nodes.Keys && Took(nodes, nodes', n) && RewardOnly(nodes, nodes', n, reward)
  {
    hide DummyClean, Balance, Mentioned, IsToken, SlotAt, AllFilled, OutSum, Balanced, TokensStay, Issued;
    nodes', ok := nodes, true;
    GrownNot(nodes, Issuers(nodes) + {n});
    TokensStayNow(nodes);
    TokenIssuers(nodes);
    if nodes[n].kind == Block {
      nodes', ok := FillBlock(nodes, n, reward);
      if ok {
        IssuersUntouched(nodes, nodes', n);
      }
    } else if n != Dummy && (nodes[n].kind == Transaction || nodes[n].kind == OnChainBlueprint) {
      nodes', ok := BalanceNode(nodes, n);
    }
  }

  /** The second loop: blocks and plain transactions in the given order. */
  method FillNodes(nodes: Nodes, order: seq<Name>, reward: nat) returns (nodes': Nodes, ok: bool)
    requires Declared(nodes) && Distinct(order) && forall n :: n in order ==> n in nodes
    ensures ok ==> Declared(nodes') && Grown(nodes, nodes', nodes.Keys)
    ensures ok ==> forall n :: n in order ==> n in nodes' && Settled(nodes', n, reward)
    ensures ok ==> forall n :: n in order ==> n in nodes' && RewardOnly(nodes, nodes', n, reward)
    ensures (forall n :: n in order ==> Fine(nodes, n, reward)) ==> ok && nodes'.Keys == nodes.Keys && Supplied(nodes, nodes', order, |order|)
    ensures DummyClean(nodes) ==> DummyClean(nodes')
  {
    hide DummyClean, Declared, Grown, Settled, Issuers, Fine, Took, Supplied, RewardOnly;
    SuppliedStart(nodes, order);
    nodes', ok := nodes, true;
    ghost var fineAll := forall n :: n in order ==> Fine(nodes, n, reward);
    GrownNot(nodes, nodes.Keys);
    var k := 0;
    while k < |order|
      invariant 0 <= k <= |order| && nodes'.Keys == nodes.Keys && Declared(nodes') && Grown(nodes, nodes', nodes.Keys)
      invariant DummyClean(nodes) ==> DummyClean(nodes')
      invariant forall j :: 0 <= j < k ==> Settled(nodes', order[j], reward)
      invariant forall j :: 0 <= j < k ==> RewardOnly(nodes, nodes', order[j], reward)
      invariant forall j :: k <= j < |order| && nodes[order[j]].kind == Block ==> nodes'[order[j]] == nodes[order[j]]
      invariant fineAll ==> Supplied(nodes, nodes', order, k) && forall j :: k <= j < |order| ==> Fine(nodes', order[j], reward)
    {
      DummyKnown(nodes');
      var more, fine := FillNode(nodes', order[k], reward);
      if !fine {
        ok := false;
        return;
      }
      ghost var touched := Issuers(nodes') + {order[k]};
      KindsStay(nodes', more, touched);
      forall j | 0 <= j < k + 1 ensures Settled(more, order[j], reward) {
        if j < k {
          StaysSettled(nodes', more, order[k], order[j], reward);
        }
      }
      KindsStay(nodes, nodes', nodes.Keys);
      KindOf(nodes, nodes', nodes.Keys);
      forall j | 0 <= j < |order| && j != k && nodes[order[j]].kind == Block ensures more[order[j]] == nodes'[order[j]] {
        BlockUntouched(nodes', more, order[k], order[j]);
      }
      forall j | 0 <= j < k + 1 ensures RewardOnly(nodes, more, order[j], reward) {
        RewardAfter(nodes, nodes', more, order[j], reward);
      }
      if fineAll {
        SuppliedNext(nodes, nodes', more, order, k, reward);
        forall j | k < j < |order| ensures Fine(more, order[j], reward) {
          StaysFine(nodes', more, order[k], order[j], reward);
        }
      }
      IssuersKnown(nodes');
      GrownTwice(nodes, nodes', more, nodes.Keys, touched);
      assert nodes.Keys + touched == nodes.Keys;
      nodes', k := more, k + 1;
    }
  }

  lemma IssuersKnown(nodes: Nodes)
    ensures Issuers(nodes) <= nodes.Keys
  {
  }

  lemma KindOf(nodes: Nodes, later: Nodes, touched: set<Name>)
    requires Grown(nodes, later, touched)
    ensures forall n :: n in nodes ==> n in later && later[n].kind == nodes[n].kind
  {
  }

  /** Blocks issue nothing, so they change only at their own turn. */
  lemma BlockUntouched(nodes: Nodes, later: Nodes, c: Name, n: Name)
    requires Declared(nodes) && Grown(nodes, later, Issuers(nodes) + {c}) && n in nodes && n != c && nodes[n].kind == Block
    ensures n in later && later[n] == nodes[n]
  {
    hide Mentioned, SlotAt;
  }

  lemma RewardAfter(nodes: Nodes, before: Nodes, later: Nodes, n: Name, reward: nat)
    requires n in nodes && n in before && n in later && before[n].kind == nodes[n].kind
    requires || (RewardOnly(nodes, before, n, reward) && (nodes[n].kind == Block ==> later[n] == before[n]))
             || (RewardOnly(before, later, n, reward) && (nodes[n].kind == Block ==> before[n] == nodes[n]))
    ensures RewardOnly(nodes, later, n, reward)
  {
  }

  /** Issuers have nothing to settle, so finishing another node settles no node less. */
  lemma StaysSettled(nodes: Nodes, later: Nodes, c: Name, n: Name, reward: nat)
    requires Declared(nodes) && Grown(nodes, later, Issuers(nodes) + {c}) && n in nodes && n != c && Settled(nodes, n, reward)
    ensures n in later && Settled(later, n, reward)
  {
    hide Balanced, AllFilled, SlotAt, Mentioned, OutSum;
    if n !in Issuers(nodes) {
      SettledGrown(nodes, later, Issuers(nodes) + {c}, n, reward);
    }
  }

  lemma StepSettles(nodes: Nodes, later: Nodes, c: Name, n: Name, reward: nat)
    requires Declared(nodes) && c in nodes && (nodes[c].kind.TokenCreation? || later == nodes) && Grown(nodes, later, {c, Dummy})
    requires n in nodes && Settled(nodes, n, reward)
    ensures n in later && Settled(later, n, reward)
  {
    hide Balanced, AllFilled, SlotAt, Mentioned, OutSum;
    if n != c && n != Dummy {
      SettledGrown(nodes, later, {c, Dummy}, n, reward);
    }
  }

  ghost function TokenDrawn(nodes: Nodes, order: seq<Name>, deposit: int -> nat): nat
    requires forall n :: n in order ==> n in nodes
  {
    if order == [] then 0 else TokenDrawn(nodes, order[..|order| - 1], deposit) + TokenDraw(nodes, order[|order| - 1], deposit)
  }

  ghost predicate TokenFine(nodes: Nodes, n: Name) {
    n in nodes && (nodes[n].kind.TokenCreation? ==> Payable(nodes, n))
  }

  /** The dummy gave what the first `k` nodes of `order` had to take; the others can still be paid. */
  ghost predicate Paying(nodes: Nodes, nodes': Nodes, order: seq<Name>, deposit: int -> nat, k: nat)
    requires k <= |order| && nodes.Keys == nodes'.Keys && Dummy in nodes && forall n :: n in order ==> n in nodes
  {
    && Issued(nodes', Htr) == Issued(nodes, Htr) + TokenDrawn(nodes, order[..k], deposit)
    && forall j :: k <= j < |order| ==> TokenFine(nodes', order[j]) && TokenDraw(nodes', order[j], deposit) == TokenDraw(nodes, order[j], deposit)
  }

  lemma PayingStart(nodes: Nodes, order: seq<Name>, deposit: int -> nat)
    requires Dummy in nodes && (forall n :: n in order ==> n in nodes) && forall n :: n in order ==> TokenFine(nodes, n)
    ensures Paying(nodes, nodes, order, deposit, 0)
  {
    hide TokenDraw, Issued;
    assert order[..0] == [];
  }

  /** One more token node is paid, or the node is none. */
  lemma PayingNext(nodes: Nodes, before: Nodes, nodes': Nodes, order: seq<Name>, deposit: int -> nat, k: nat)
    requires k < |order| && nodes.Keys == before.Keys == nodes'.Keys && Dummy in nodes && Distinct(order) && forall n :: n in order ==> n in nodes
    requires Declared(before) && Paying(nodes, before, order, deposit, k)
    requires Grown(before, nodes', {order[k], Dummy})
    requires Issued(nodes', Htr) == Issued(before, Htr) + TokenDraw(before, order[k], deposit)
    ensures Paying(nodes, nodes', order, deposit, k + 1)
  {
    hide TokenDraw, Issued, Grown, Declared, TokenFine;
    assert order[..k + 1][..k] == order[..k];
    forall j | k + 1 <= j < |order| ensures TokenFine(nodes', order[j]) && TokenDraw(nodes', order[j], deposit) == TokenDraw(nodes, order[j], deposit) {
      TokenDrawStays(before, nodes', order[k], order[j], deposit);
    }
  }

  lemma TokenDrawStays(nodes: Nodes, later: Nodes, c: Name, n: Name, deposit: int -> nat)
    requires Declared(nodes) && Grown(nodes, later, {c, Dummy}) && n in nodes && n != c && TokenFine(nodes, n)
    ensures n in later && TokenFine(later, n) && TokenDraw(later, n, deposit) == TokenDraw(nodes, n, deposit)
  {
    hide Balance, SlotAt, Mentioned, OutSum;
    if nodes[n].kind.TokenCreation? {
      PayableGrown(nodes, later, {c, Dummy}, n);
      if !nodes[n].kind.given {
        BalanceGrown(nodes, later, {c, Dummy}, n, Htr);
        BalanceGrown(nodes, later, {c, Dummy}, n, Custom(n));
      }
    }
  }

  /** The third loop: the created tokens. */
  method FillTokens(nodes: Nodes, order: seq<Name>, deposit: int -> nat, ghost reward: nat) returns (nodes': Nodes, ok: bool)
    requires Declared(nodes) && Distinct(order) && forall n :: n in order ==> n in nodes && Settled(nodes, n, reward)
    ensures ok ==> Declared(nodes') && Grown(nodes, nodes', nodes.Keys)
    ensures ok ==> forall n :: n in order ==> n in nodes' && Settled(nodes', n, reward) && TokenPaid(nodes', n, deposit)
    ensures DummyClean(nodes) ==> DummyClean(nodes')
    ensures ok ==> forall n :: n in order && nodes[n].kind == Block ==> n in nodes' && nodes'[n] == nodes[n]
    ensures (forall n :: n in order ==> TokenFine(nodes, n)) ==>
              ok && Dummy in nodes && Dummy in nodes' && Issued(nodes', Htr) == Issued(nodes, Htr) + TokenDrawn(nodes, order, deposit)
  {
    hide DummyClean, Declared, Settled, SlotAt, AllFilled, Balance, Issued, TokenDraw, TokenFine, Payable, TokenPaid, Grown, Paying;
    nodes', ok := nodes, true;
    GrownNot(nodes, nodes.Keys);
    DummyKnown(nodes);
    ghost var fineAll := forall n :: n in order ==> TokenFine(nodes, n);
    if fineAll {
      PayingStart(nodes, order, deposit);
    }
    var k := 0;
    while k < |order|
      invariant 0 <= k <= |order| && nodes'.Keys == nodes.Keys && Declared(nodes') && Grown(nodes, nodes', nodes.Keys)
      invariant (DummyClean(nodes) ==> DummyClean(nodes')) && (fineAll ==> Paying(nodes, nodes', order, deposit, k))
      invariant forall n :: n in order ==> Settled(nodes', n, reward)
      invariant forall n :: n in order && nodes[n].kind == Block ==> nodes'[n] == nodes[n]
      invariant forall j :: 0 <= j < k ==> TokenPaid(nodes', order[j], deposit)
    {
      var c := order[k];
      var more, fine := PayNode(nodes', c, deposit);
      if !fine {
        if fineAll {
          NextIsFine(nodes, nodes', order, deposit, k);
        }
        ok := false;
        return;
      }
      forall n | n in order ensures Settled(more, n, reward) {
        StepSettles(nodes', more, c, n, reward);
      }
      forall n | n in order && nodes[n].kind == Block ensures more[n] == nodes[n] {
        BlockNotPaid(nodes', more, c, n);
      }
      forall j | 0 <= j < k + 1 ensures TokenPaid(more, order[j], deposit) {
        if j < k {
          StaysPaid(nodes', more, c, order[j], deposit);
        }
      }
      if fineAll {
        PayingNext(nodes, nodes', more, order, deposit, k);
      }
      GrownTwice(nodes, nodes', more, nodes.Keys, {c, Dummy});
      assert nodes.Keys + {c, Dummy} == nodes.Keys;
      nodes', k := more, k + 1;
    }
    if fineAll {
      PayingEnd(nodes, nodes', order, deposit);
    }
  }

  lemma BlockNotPaid(nodes: Nodes, later: Nodes, c: Name, n: Name)
    requires Declared(nodes) && c in nodes && (nodes[c].kind.TokenCreation? || later == nodes) && Grown(nodes, later, {c, Dummy})
    requires n in nodes && nodes[n].kind == Block
    ensures n in later && later[n] == nodes[n]
  {
    hide Mentioned, SlotAt;
  }

  lemma NextIsFine(nodes: Nodes, nodes': Nodes, order: seq<Name>, deposit: int -> nat, k: nat)
    requires k < |order| && nodes.Keys == nodes'.Keys && Dummy in nodes && forall n :: n in order ==> n in nodes
    requires Paying(nodes, nodes', order, deposit, k)
    ensures TokenFine(nodes', order[k])
  {
  }

  lemma PayingEnd(nodes: Nodes, nodes': Nodes, order: seq<Name>, deposit: int -> nat)
    requires nodes.Keys == nodes'.Keys && Dummy in nodes && (forall n :: n in order ==> n in nodes) && Paying(nodes, nodes', order, deposit, |order|)
    ensures Issued(nodes', Htr) == Issued(nodes, Htr) + TokenDrawn(nodes, order, deposit)
  {
    assert order[..|order|] == order;
  }

  lemma StaysPaid(nodes: Nodes, later: Nodes, c: Name, n: Name, deposit: int -> nat)
    requires Declared(nodes) && Grown(nodes, later, {c, Dummy}) && n in nodes && n != c && TokenPaid(nodes, n, deposit)
    ensures n in later && TokenPaid(later, n, deposit)
  {
    hide Balance, SlotAt, Mentioned;
    if n != Dummy {
      TokenPaidGrown(nodes, later, {c, Dummy}, n, deposit);
    }
  }

  /** One step of the third loop. */
  method PayNode(nodes: Nodes, c: Name, deposit: int -> nat) returns (nodes': Nodes, ok: bool)
    requires Declared(nodes) && c in nodes
    ensures ok <==> TokenFine(nodes, c)
    ensures ok ==> Declared(nodes') && Grown(nodes, nodes', {c, Dummy}) && nodes'.Keys == nodes.Keys && TokenPaid(nodes', c, deposit)
    ensures ok ==> nodes[c].kind.TokenCreation? || nodes' == nodes
    ensures DummyClean(nodes) ==> DummyClean(nodes')
    ensures ok ==> Dummy in nodes && Dummy in nodes' && Issued(nodes', Htr) == Issued(nodes, Htr) + TokenDraw(nodes, c, deposit)
  {
    hide DummyClean, SlotAt, AllFilled, Balance, Issued, Payable, Mentioned, IsToken;
    nodes', ok := nodes, true;
    if nodes[c].kind.TokenCreation? {
      nodes', ok := FillToken(nodes, c, deposit);
    } else {
      GrownNot(nodes, {c, Dummy});
    }
  }

  lemma DummyKnown(nodes: Nodes)
    requires Declared(nodes)
    ensures Dummy in nodes && nodes[Dummy].kind == Transaction
  {
  }

  /** The whole pass.  When it does not raise, every plain transaction has its declared balances,
  every created token pays its deposit, every block pays the reward, the dummy spends what it
  takes, and no output that was there has changed. */
  method Run(nodes: Nodes, order: seq<Name>, reward: nat, deposit: int -> nat) returns (nodes': Nodes, ok: bool)
    requires Declared(nodes) && Distinct(order) && forall n :: n in order <==> n in nodes
    ensures ok ==> nodes'.Keys == nodes.Keys || nodes'.Keys == nodes.Keys - {Dummy}
    ensures ok ==> forall n :: n in nodes && n != Dummy ==> n in nodes' && Settled(nodes', n, reward) && TokenPaid(nodes', n, deposit)
    ensures ok ==> forall n :: n in nodes && n != Dummy ==> nodes'[n].kind == nodes[n].kind && nodes'[n].balances == nodes[n].balances
    ensures ok && Dummy in nodes' ==> OutSum(nodes'[Dummy].outputs, Htr) == InSum(nodes', nodes'[Dummy].inputs, Htr)
    ensures ok ==> forall i: Input :: SlotAt(nodes, i).Filled? && i.node in nodes' ==> SlotAt(nodes', i) == SlotAt(nodes, i)
    ensures ok ==> forall n :: n in nodes && n != Dummy ==> n in nodes' && GotUnit(nodes, nodes', n) && RewardOnly(nodes, nodes', n, reward)
    ensures ok && Dummy in nodes' && DummyClean(nodes) && SlotAt(nodes, Input(GenesisBlock, 0)).Filled? ==>
              && nodes'[Dummy].inputs == [Input(GenesisBlock, 0)]
              && OutSum(nodes'[Dummy].outputs, Htr) == Value(SlotAt(nodes, Input(GenesisBlock, 0)), Htr)
    ensures Solvable(nodes, order, reward) ==> (ok <==> Need(nodes, order, deposit) <= Value(SlotAt(nodes, Input(GenesisBlock, 0)), Htr))
  {
    hide DummyClean, Declared, Settled, SlotAt, AllFilled, TokenPaid, Grown, Solvable, Need, Issued, Tokens;
    nodes' := nodes;
    var paid, fine := Fill(nodes, order, reward, deposit);
    if !fine {
      return nodes, false;
    }
    DummyKnown(paid);
    SolvableParts(nodes, order, reward);
    nodes', ok := CloseDummy(paid);
    if DummyClean(paid) && SlotAt(nodes, Input(GenesisBlock, 0)).Filled? && SlotAt(nodes, Input(GenesisBlock, 0)).out.token == Htr {
      EnoughExactly(nodes, paid);
    }
    if ok {
      Closed(nodes, paid, nodes', nodes.Keys);
      forall n | n in nodes && n != Dummy ensures n in nodes' && GotUnit(nodes, nodes', n) && RewardOnly(nodes, nodes', n, reward) {
        ClosedUnits(nodes, paid, nodes', n, reward);
      }
      if Dummy in nodes' && DummyClean(nodes) && SlotAt(nodes, Input(GenesisBlock, 0)).Filled? {
        DummyConservesGenesis(nodes, paid, nodes', nodes.Keys);
      }
      forall n | n in nodes && n != Dummy ensures n in nodes' && Settled(nodes', n, reward) && TokenPaid(nodes', n, deposit) {
        if Dummy in nodes' {
          SettledGrown(paid, nodes', {Dummy}, n, reward);
          TokenPaidGrown(paid, nodes', {Dummy}, n, deposit);
        } else {
          SettledDropped(paid, n, reward, deposit);
        }
      }
    }
  }

  /** A description nothing is wrong with besides, perhaps, asking for too much: no output of amount
  zero, blocks within the reward, tokens that can be paid, a dummy without uses of its own, and a
  native genesis output. */
  ghost predicate Solvable(nodes: Nodes, order: seq<Name>, reward: nat) {
    && DummyClean(nodes) && SlotAt(nodes, Input(GenesisBlock, 0)).Filled? && SlotAt(nodes, Input(GenesisBlock, 0)).out.token == Htr
    && (forall n :: n in order ==> Positive(nodes, n))
    && (forall n :: n in order ==> n in Prepared(nodes) && Fine(Prepared(nodes), n, reward) && TokenFine(Prepared(nodes), n))
  }

  lemma SolvableParts(nodes: Nodes, order: seq<Name>, reward: nat)
    ensures Solvable(nodes, order, reward) ==>
              DummyClean(nodes) && SlotAt(nodes, Input(GenesisBlock, 0)).Filled? && SlotAt(nodes, Input(GenesisBlock, 0)).out.token == Htr
  {
  }

  /** What the node of a token has to take from the dummy once all others took its token. */
  ghost function TokenNeed(slots: Nodes, order: seq<Name>, n: Name, deposit: int -> nat): nat
    requires n in slots && forall m :: m in order ==> m in slots
  {
    if slots[n].kind.TokenCreation? && !slots[n].kind.given && n != Dummy then
      var minted := Balance(slots, slots[n], Custom(n)) + Drawn(slots, order, Custom(n));
      AtLeastZero(Balance(slots, slots[n], Htr) - (Get(slots[n].balances, Htr) - if slots[n].kind.version == Deposit then deposit(minted) else 0))
    else 0
  }

  ghost function TokenNeeds(slots: Nodes, order: seq<Name>, k: nat, deposit: int -> nat): nat
    requires k <= |order| && forall m :: m in order ==> m in slots
  {
    if k == 0 then 0 else TokenNeeds(slots, order, k - 1, deposit) + TokenNeed(slots, order, order[k - 1], deposit)
  }

  /** All the native tokens the dummy has to give. */
  ghost function Need(nodes: Nodes, order: seq<Name>, deposit: int -> nat): int
    requires Dummy in nodes && forall n :: n in order ==> n in nodes
  {
    Issued(nodes, Htr) + Drawn(Prepared(nodes), order, Htr) + TokenNeeds(Prepared(nodes), order, |order|, deposit)
  }

  lemma TokenNeedIs(slots: Nodes, filled: Nodes, order: seq<Name>, n: Name, deposit: int -> nat)
    requires Declared(slots) && Grown(slots, filled, slots.Keys) && (forall m :: m in order ==> m in slots) && slots.Keys == filled.Keys
    requires Supplied(slots, filled, order, |order|) && n in slots && TokenFine(slots, n)
    ensures TokenFine(filled, n) && TokenDraw(filled, n, deposit) == TokenNeed(slots, order, n, deposit)
  {
    hide OutSum, InSum, SlotAt, Mentioned, Drawn, Draw, Tokens;
    if slots[n].kind.TokenCreation? {
      assert IsToken(slots, Custom(n)) && StillPayable(slots, filled, n);
      if !slots[n].kind.given {
        assert order[..|order|] == order;
        InSumGrown(slots, filled, slots.Keys, slots[n].inputs, Htr);
        InSumGrown(slots, filled, slots.Keys, slots[n].inputs, Custom(n));
        assert Issued(filled, Custom(n)) == Issued(slots, Custom(n)) + Drawn(slots, order, Custom(n));
      }
    }
  }

  lemma {:induction false} TokenNeedsAre(slots: Nodes, filled: Nodes, order: seq<Name>, k: nat, deposit: int -> nat)
    requires Declared(slots) && Grown(slots, filled, slots.Keys) && (forall m :: m in order ==> m in slots) && slots.Keys == filled.Keys
    requires Supplied(slots, filled, order, |order|) && k <= |order| && forall n :: n in order ==> TokenFine(slots, n)
    ensures TokenDrawn(filled, order[..k], deposit) == TokenNeeds(slots, order, k, deposit)
  {
    if k > 0 {
      hide Supplied, Grown, Declared, TokenFine, TokenDraw, TokenNeed;
      TokenNeedsAre(slots, filled, order, k - 1, deposit);
      TokenNeedIs(slots, filled, order, order[k - 1], deposit);
      assert order[..k][..k - 1] == order[..k - 1];
    }
  }

  /** The dummy can give what it has to exactly when that is not above the genesis amount. */
  lemma EnoughExactly(nodes: Nodes, paid: Nodes)
    requires Grown(nodes, paid, nodes.Keys) && DummyClean(paid)
    requires SlotAt(nodes, Input(GenesisBlock, 0)).Filled? && SlotAt(nodes, Input(GenesisBlock, 0)).out.token == Htr
    ensures (&& AllFilled(paid, paid[Dummy])
             && (Tokens(paid, Dummy) == {} || (Tokens(paid, Dummy) == {Htr} && Balance(paid, paid[Dummy], Htr) <= 0)))
            <==> Issued(paid, Htr) <= Value(SlotAt(nodes, Input(GenesisBlock, 0)), Htr)
  {
    var g := Input(GenesisBlock, 0);
    SumsOfNothing(paid);
    InSumAppend(paid, [], g, Htr);
    TokensInAppend(paid, [], g);
    assert [] + [g] == [g] && SlotAt(paid, g) == SlotAt(nodes, g);
    assert TokensOut(paid[Dummy].outputs) <= {Htr};
  }

  /** The three loops. */
  method Fill(nodes: Nodes, order: seq<Name>, reward: nat, deposit: int -> nat) returns (paid: Nodes, ok: bool)
    requires Declared(nodes) && Distinct(order) && forall n :: n in order <==> n in nodes
    ensures ok ==> Declared(paid) && paid.Keys == nodes.Keys && Grown(nodes, paid, nodes.Keys) && (DummyClean(nodes) ==> DummyClean(paid))
    ensures ok ==> forall n :: n in nodes ==> Settled(paid, n, reward) && TokenPaid(paid, n, deposit)
    ensures ok ==> forall n :: n in nodes ==> GotUnit(nodes, paid, n) && RewardOnly(nodes, paid, n, reward)
    ensures Solvable(nodes, order, reward) ==> ok && Dummy in nodes && Dummy in paid && Issued(paid, Htr) == Need(nodes, order, deposit)
  {
    hide GotUnit, RewardOnly, SlotAt, Slotted, DummyClean, Declared, Settled, AllFilled, TokenPaid, Grown, Issued, Fine, TokenFine, Supplied, Prepared, Positive, Drawn, TokenDrawn;
    paid := nodes;
    DummyKnown(nodes);
    var slots, fine1 := FillAllSlots(nodes, order);
    if !fine1 {
      return nodes, false;
    }
    KindsStay(nodes, slots, nodes.Keys);
    SlotsArePrepared(nodes, slots, order);
    DummyKnown(slots);
    var filled, fine2 := FillNodes(slots, order, reward);
    if !fine2 {
      return nodes, false;
    }
    KindsStay(slots, filled, nodes.Keys);
    DummyKnown(filled);
    if Solvable(nodes, order, reward) {
      forall n | n in order ensures TokenFine(filled, n) {
        TokenNeedIs(slots, filled, order, n, deposit);
      }
      DummyGave(slots, filled, order);
      TokenNeedsAre(slots, filled, order, |order|, deposit);
      assert order[..|order|] == order;
    }
    paid, ok := FillTokens(filled, order, deposit, reward);
    if ok {
      KindsStay(filled, paid, nodes.Keys);
      UnitsAndRewards(nodes, slots, filled, paid, reward);
      GrownTwice(nodes, slots, filled, nodes.Keys, nodes.Keys);
      GrownTwice(nodes, filled, paid, nodes.Keys + nodes.Keys, nodes.Keys);
      assert nodes.Keys + nodes.Keys + nodes.Keys == nodes.Keys;
    }
  }

  /** What the first loop gives a node, and the second a block, is still there at the end. */
  lemma UnitsAndRewards(nodes: Nodes, slots: Nodes, filled: Nodes, paid: Nodes, reward: nat)
    requires nodes.Keys == slots.Keys == filled.Keys == paid.Keys
    requires Grown(nodes, slots, nodes.Keys) && Grown(slots, filled, nodes.Keys) && Grown(filled, paid, nodes.Keys)
    requires forall n :: n in nodes ==> GotUnit(nodes, slots, n) && (nodes[n].kind == Block && nodes[n].outputs == [] ==> slots[n] == nodes[n])
    requires forall n :: n in nodes ==> RewardOnly(slots, filled, n, reward) && (filled[n].kind == Block ==> paid[n] == filled[n])
    ensures forall n :: n in nodes ==> GotUnit(nodes, paid, n) && RewardOnly(nodes, paid, n, reward)
  {
    hide SlotAt;
    GrownTwice(slots, filled, paid, nodes.Keys, nodes.Keys);
    forall n | n in nodes ensures GotUnit(nodes, paid, n) && RewardOnly(nodes, paid, n, reward) {
      assert GotUnit(nodes, slots, n) && RewardOnly(slots, filled, n, reward);
    }
  }

  lemma SlotsArePrepared(nodes: Nodes, slots: Nodes, order: seq<Name>)
    requires Dummy in nodes && slots.Keys == nodes.Keys && (forall n :: n in order <==> n in nodes)
    requires forall k :: 0 <= k < |order| ==> order[k] in nodes && slots[order[k]] == Prepared(nodes)[order[k]]
    requires forall k :: 0 <= k < |order| ==> GotUnit(nodes, slots, order[k])
    requires forall k :: 0 <= k < |order| && nodes[order[k]].kind == Block && nodes[order[k]].outputs == [] ==> slots[order[k]] == nodes[order[k]]
    ensures slots == Prepared(nodes) && Dummy in slots && Issued(slots, Htr) == Issued(nodes, Htr)
    ensures forall n :: n in nodes ==> GotUnit(nodes, slots, n) && (nodes[n].kind == Block && nodes[n].outputs == [] ==> slots[n] == nodes[n])
  {
    hide GotUnit;
    forall n | n in nodes
      ensures slots[n] == Prepared(nodes)[n]
      ensures GotUnit(nodes, slots, n) && (nodes[n].kind == Block && nodes[n].outputs == [] ==> slots[n] == nodes[n])
    {
      var k :| 0 <= k < |order| && order[k] == n;
    }
  }

  lemma DummyGave(slots: Nodes, filled: Nodes, order: seq<Name>)
    requires slots.Keys == filled.Keys && (forall m :: m in order ==> m in slots) && Supplied(slots, filled, order, |order|) && Dummy in slots
    ensures Issued(filled, Htr) == Issued(slots, Htr) + Drawn(slots, order, Htr)
  {
    HtrIsToken(slots);
    assert order[..|order|] == order;
  }

  /** Closing the dummy keeps kinds, declared balances and filled slots. */
  lemma Closed(nodes: Nodes, paid: Nodes, nodes': Nodes, touched: set<Name>)
    requires Grown(nodes, paid, touched) && Dummy in paid
    requires if Dummy in nodes' then Grown(paid, nodes', {Dummy}) else nodes' == paid - {Dummy}
    ensures nodes'.Keys == if Dummy in nodes' then nodes.Keys else nodes.Keys - {Dummy}
    ensures forall n :: n in nodes && n != Dummy ==> n in nodes' && nodes'[n].kind == nodes[n].kind && nodes'[n].balances == nodes[n].balances
    ensures forall i: Input :: SlotAt(nodes, i).Filled? && i.node in nodes' ==> SlotAt(nodes', i) == SlotAt(nodes, i)
  {
    SlotsDropped(paid);
  }

  lemma ClosedUnits(nodes: Nodes, paid: Nodes, nodes': Nodes, n: Name, reward: nat)
    requires n in nodes && n != Dummy && n in paid && Dummy in paid && GotUnit(nodes, paid, n) && RewardOnly(nodes, paid, n, reward)
    requires if Dummy in nodes' then Grown(paid, nodes', {Dummy}) else nodes' == paid - {Dummy}
    ensures n in nodes' && GotUnit(nodes, nodes', n) && RewardOnly(nodes, nodes', n, reward)
  {
    SlotsDropped(paid);
  }

  lemma SlotsDropped(nodes: Nodes)
    ensures forall i: Input :: i.node != Dummy ==> SlotAt(nodes - {Dummy}, i) == SlotAt(nodes, i)
  {
  }

  /** A dummy that was unused at first gives exactly the genesis amount to its outputs. */
  lemma DummyConservesGenesis(nodes: Nodes, paid: Nodes, nodes': Nodes, touched: set<Name>)
    requires Grown(nodes, paid, touched) && DummyClean(paid) && SlotAt(nodes, Input(GenesisBlock, 0)).Filled?
    requires Tokens(paid, Dummy) != {} && Grown(paid, nodes', {Dummy})
    requires nodes'[Dummy].inputs == paid[Dummy].inputs && Balance(nodes', nodes'[Dummy], Htr) == 0
    ensures nodes'[Dummy].inputs == [Input(GenesisBlock, 0)]
    ensures OutSum(nodes'[Dummy].outputs, Htr) == Value(SlotAt(nodes, Input(GenesisBlock, 0)), Htr)
  {
    var g := Input(GenesisBlock, 0);
    SumsOfNothing(paid);
    InSumAppend(nodes', [], g, Htr);
    SumsOfNothing(nodes');
    assert [] + [g] == [g] && SlotAt(nodes', g) == SlotAt(nodes, g);
  }
}
