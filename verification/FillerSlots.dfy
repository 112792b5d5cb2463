/** Nodes of a DAG description: their slots, sums and balances, and what later steps never undo. */
module FillerSlots {

  /** The dummy transaction, the genesis block, and the nodes of the description. */
  datatype Name = Dummy | GenesisBlock | Named(id: nat)

  /** The native token, or one created by the node of the same name. */
  datatype Token = Htr | Custom(node: Name)

  datatype Output = Output(amount: nat, token: Token)
  datatype Slot = Empty | Filled(out: Output)
  datatype Input = Input(node: Name, index: nat)
  datatype Version = Deposit | Fee
  datatype Kind = Genesis | Block | Transaction | OnChainBlueprint | TokenCreation(version: Version, given: bool)

  /** `balances` declares outputs minus inputs per token; an absent token means zero. */
  datatype Node = Node(kind: Kind, inputs: seq<Input>, outputs: seq<Slot>, balances: map<Token, int>)

  type Nodes = map<Name, Node>

  // ----- sums -----

  function Value(slot: Slot, t: Token): int {
    if slot.Filled? && slot.out.token == t then slot.out.amount else 0
  }

  function SlotAt(nodes: Nodes, i: Input): Slot {
    if i.node in nodes && i.index < |nodes[i.node].outputs| then nodes[i.node].outputs[i.index] else Empty
  }

  ghost function OutSum(outputs: seq<Slot>, t: Token): int {
    if outputs == [] then 0 else OutSum(outputs[..|outputs| - 1], t) + Value(outputs[|outputs| - 1], t)
  }

  ghost function InSum(nodes: Nodes, inputs: seq<Input>, t: Token): int {
    if inputs == [] then 0 else InSum(nodes, inputs[..|inputs| - 1], t) + Value(SlotAt(nodes, inputs[|inputs| - 1]), t)
  }

  ghost function Balance(nodes: Nodes, node: Node, t: Token): int {
    OutSum(node.outputs, t) - InSum(nodes, node.inputs, t)
  }

  function Get(m: map<Token, int>, t: Token): int {
    if t in m then m[t] else 0
  }

  /** No slot of the node and none it spends is empty. */
  ghost predicate AllFilled(nodes: Nodes, node: Node) {
    && (forall s :: s in node.outputs ==> s.Filled?)
    && (forall i :: i in node.inputs ==> SlotAt(nodes, i).Filled?)
  }

  lemma OutSumAppend(outputs: seq<Slot>, s: Slot, t: Token)
    ensures OutSum(outputs + [s], t) == OutSum(outputs, t) + Value(s, t)
  {
    assert (outputs + [s])[..|outputs|] == outputs;
  }

  lemma InSumAppend(nodes: Nodes, inputs: seq<Input>, i: Input, t: Token)
    ensures InSum(nodes, inputs + [i], t) == InSum(nodes, inputs, t) + Value(SlotAt(nodes, i), t)
  {
    assert (inputs + [i])[..|inputs|] == inputs;
  }

  lemma {:induction false} OutSumPlace(outputs: seq<Slot>, k: nat, s: Slot, t: Token)
    requires k < |outputs| && outputs[k] == Empty
    ensures OutSum(outputs[k := s], t) == OutSum(outputs, t) + Value(s, t)
  {
    var n := |outputs| - 1;
    if k < n {
      OutSumPlace(outputs[..n], k, s, t);
      assert outputs[k := s][..n] == outputs[..n][k := s];
    } else {
      assert outputs[k := s][..n] == outputs[..n];
    }
  }

  // ----- what later steps never undo -----

  /** `later` has the same nodes, only those of `touched` differ, and no filled slot has changed. */
  ghost predicate Grown(nodes: Nodes, later: Nodes, touched: set<Name>) {
    && nodes.Keys == later.Keys
    && (forall n :: n in nodes && n !in touched ==> later[n] == nodes[n])
    && (forall n :: n in nodes ==> later[n].kind == nodes[n].kind && later[n].balances == nodes[n].balances)
    && (forall i :: SlotAt(nodes, i).Filled? ==> SlotAt(later, i) == SlotAt(nodes, i))
  }

  /** Slots filled since then are of token `t`. */
  ghost predicate OnlyNew(nodes: Nodes, later: Nodes, t: Token) {
    forall i :: SlotAt(later, i).Filled? ==> SlotAt(nodes, i).Filled? || SlotAt(later, i).out.token == t
  }

  lemma GrownNot(nodes: Nodes, touched: set<Name>)
    ensures Grown(nodes, nodes, touched)
  {
  }

  lemma GrownTwice(a: Nodes, b: Nodes, c: Nodes, touched: set<Name>, touched': set<Name>)
    requires Grown(a, b, touched) && Grown(b, c, touched')
    ensures Grown(a, c, touched + touched')
  {
  }

  lemma {:induction false} InSumGrown(nodes: Nodes, later: Nodes, touched: set<Name>, inputs: seq<Input>, t: Token)
    requires Grown(nodes, later, touched) && forall i :: i in inputs ==> SlotAt(nodes, i).Filled?
    ensures InSum(later, inputs, t) == InSum(nodes, inputs, t)
  {
    if inputs != [] {
      InSumGrown(nodes, later, touched, inputs[..|inputs| - 1], t);
    }
  }

  /** The balance of a node that is not touched stays, because nothing it spends changes. */
  lemma BalanceGrown(nodes: Nodes, later: Nodes, touched: set<Name>, n: Name, t: Token)
    requires Grown(nodes, later, touched) && n in nodes && n !in touched && AllFilled(nodes, nodes[n])
    ensures Balance(later, later[n], t) == Balance(nodes, nodes[n], t) && AllFilled(later, later[n])
  {
    InSumGrown(nodes, later, touched, nodes[n].inputs, t);
  }

  // ----- slots -----

  /** The first empty slot, or a new one at the end. */
  method NextIndex(outputs: seq<Slot>) returns (outputs': seq<Slot>, index: nat)
    ensures index < |outputs'| && outputs'[index] == Empty && forall k :: 0 <= k < index ==> outputs'[k] != Empty
    ensures outputs' == outputs || (outputs' == outputs + [Empty] && index == |outputs|)
  {
    index := 0;
    while index < |outputs|
      invariant 0 <= index <= |outputs| && forall k :: 0 <= k < index ==> outputs[k] != Empty
    {
      if outputs[index] == Empty {
        return outputs, index;
      }
      index := index + 1;
    }
    outputs' := outputs + [Empty];
  }

  /** Puts an output in a free slot: every sum grows by its value and no filled slot changes. */
  method AddOutput(outputs: seq<Slot>, out: Output) returns (outputs': seq<Slot>, index: nat)
    ensures index < |outputs'| && outputs'[index] == Filled(out) && (index < |outputs| ==> outputs[index] == Empty)
    ensures |outputs| <= |outputs'| && forall k :: 0 <= k < |outputs'| && k != index ==> k < |outputs| && outputs'[k] == outputs[k]
    ensures forall t :: OutSum(outputs', t) == OutSum(outputs, t) + Value(Filled(out), t)
    ensures forall s :: s in outputs' ==> s in outputs || s == Filled(out)
    ensures forall s :: s in outputs && s.Filled? ==> s in outputs'
    ensures outputs == [] ==> outputs' == [Filled(out)]
  {
    var room;
    room, index := NextIndex(outputs);
    outputs' := room[index := Filled(out)];
    forall s | s in outputs' ensures s in outputs || s == Filled(out) {
      var k :| 0 <= k < |outputs'| && outputs'[k] == s;
      assert k != index ==> outputs[k] == s;
    }
    forall s | s in outputs && s.Filled? ensures s in outputs' {
      var k :| 0 <= k < |outputs| && outputs[k] == s;
      assert outputs'[k] == s;
    }
    forall t ensures OutSum(outputs', t) == OutSum(outputs, t) + Value(Filled(out), t) {
      OutSumPlace(room, index, Filled(out), t);
      OutSumAppend(outputs, Empty, t);
    }
  }

  /** The node that issues a token: the dummy for the native one. */
  function Issuer(t: Token): Name {
    if t.Htr? then Dummy else t.node
  }

  function AddInput(inputs: seq<Input>, i: Input): seq<Input> {
    if i in inputs then inputs else inputs + [i]
  }

  /** The dummy declares nothing; it is unused, or it spends the genesis output and nothing else; its
  outputs are native. */
  ghost predicate DummyClean(nodes: Nodes) {
    && Dummy in nodes && nodes[Dummy].balances == map[] && (forall s :: s in nodes[Dummy].outputs ==> s.Filled? && s.out.token == Htr)
    && (nodes[Dummy].inputs == [Input(GenesisBlock, 0)] || (nodes[Dummy].inputs == [] && nodes[Dummy].outputs == []))
  }

  lemma CleanUntouched(nodes: Nodes, later: Nodes, touched: set<Name>)
    requires DummyClean(nodes) && Grown(nodes, later, touched) && Dummy !in touched
    ensures DummyClean(later)
  {
  }

  lemma CleanAfterDraw(nodes: Nodes, outputs: seq<Slot>, amount: nat)
    requires DummyClean(nodes) && forall s :: s in outputs ==> s in nodes[Dummy].outputs || s == Filled(Output(amount, Htr))
    ensures DummyClean(nodes[Dummy := nodes[Dummy].(inputs := AddInput(nodes[Dummy].inputs, Input(GenesisBlock, 0)), outputs := outputs)])
  {
  }

  /** The issuer of `t` gained one output of `amount`. */
  ghost predicate Gave(nodes: Nodes, later: Nodes, t: Token, amount: nat)
    requires Issuer(t) in nodes && Issuer(t) in later
  {
    var before, after := nodes[Issuer(t)].outputs, later[Issuer(t)].outputs;
    && (forall u :: OutSum(after, u) == OutSum(before, u) + Value(Filled(Output(amount, t)), u))
    && (forall s :: s in after ==> s in before || s == Filled(Output(amount, t)))
    && (forall s :: s in before && s.Filled? ==> s in after)
  }

  /** A fresh output of the issuer. */
  method FindTxIn(nodes: Nodes, amount: nat, t: Token) returns (nodes': Nodes, input: Input)
    requires Issuer(t) in nodes
    ensures Grown(nodes, nodes', {Issuer(t)}) && OnlyNew(nodes, nodes', t) && input.node == Issuer(t)
    ensures SlotAt(nodes, input) == Empty && SlotAt(nodes', input) == Filled(Output(amount, t))
    ensures var n := Issuer(t); nodes'[n].inputs == if t == Htr then AddInput(nodes[n].inputs, Input(GenesisBlock, 0)) else nodes[n].inputs
    ensures Gave(nodes, nodes', t, amount)
    ensures DummyClean(nodes) && (t == Htr || Issuer(t) != Dummy) ==> DummyClean(nodes')
  {
    hide DummyClean;
    var node := nodes[Issuer(t)];
    if t == Htr {
      node := node.(inputs := AddInput(node.inputs, Input(GenesisBlock, 0)));
    }
    var outputs, index := AddOutput(node.outputs, Output(amount, t));
    nodes', input := nodes[Issuer(t) := node.(outputs := outputs)], Input(Issuer(t), index);
    if DummyClean(nodes) {
      if t == Htr {
        CleanAfterDraw(nodes, outputs, amount);
      } else if Issuer(t) != Dummy {
        CleanUntouched(nodes, nodes', {Issuer(t)});
      }
    }
  }

  // ----- balances -----

  /** Some output is of token `t`. */
  ghost predicate Mentioned(nodes: Nodes, t: Token) {
    exists i: Input :: SlotAt(nodes, i).Filled? && SlotAt(nodes, i).out.token == t
  }

  ghost function TokensOut(outputs: seq<Slot>): set<Token> {
    set s | s in outputs && s.Filled? :: s.out.token
  }

  ghost function TokensIn(nodes: Nodes, inputs: seq<Input>): set<Token> {
    set i | i in inputs && SlotAt(nodes, i).Filled? :: SlotAt(nodes, i).out.token
  }

  /** The tokens of a node: of what it spends, of its outputs, and those declared. */
  ghost function Tokens(nodes: Nodes, n: Name): set<Token>
    requires n in nodes
  {
    TokensIn(nodes, nodes[n].inputs) + TokensOut(nodes[n].outputs) + nodes[n].balances.Keys
  }

  lemma TokensMentioned(nodes: Nodes, n: Name)
    requires n in nodes
    ensures forall t :: t in Tokens(nodes, n) ==> t in nodes[n].balances || Mentioned(nodes, t)
  {
    forall s | s in nodes[n].outputs && s.Filled? ensures Mentioned(nodes, s.out.token) {
      var k :| 0 <= k < |nodes[n].outputs| && nodes[n].outputs[k] == s;
      assert SlotAt(nodes, Input(n, k)) == s;
    }
  }

  lemma TokensInAppend(nodes: Nodes, inputs: seq<Input>, i: Input)
    requires SlotAt(nodes, i).Filled?
    ensures TokensIn(nodes, inputs + [i]) == TokensIn(nodes, inputs) + {SlotAt(nodes, i).out.token}
  {
    assert i in inputs + [i];
    forall t | t in TokensIn(nodes, inputs) ensures t in TokensIn(nodes, inputs + [i]) {
      var j :| j in inputs && SlotAt(nodes, j).Filled? && SlotAt(nodes, j).out.token == t;
      assert j in inputs + [i];
    }
  }

  lemma TokensOutAppend(outputs: seq<Slot>, s: Slot)
    requires s.Filled?
    ensures TokensOut(outputs + [s]) == TokensOut(outputs) + {s.out.token}
  {
    assert s in outputs + [s];
    forall t | t in TokensOut(outputs) ensures t in TokensOut(outputs + [s]) {
      var r :| r in outputs && r.Filled? && r.out.token == t;
      assert r in outputs + [s];
    }
  }

  lemma SomeTokens(nodes: Nodes, n: Name)
    requires n in nodes && AllFilled(nodes, nodes[n]) && (nodes[n].inputs != [] || nodes[n].outputs != [])
    ensures Tokens(nodes, n) != {}
  {
    if nodes[n].inputs != [] {
      assert nodes[n].inputs[0] in nodes[n].inputs;
      assert SlotAt(nodes, nodes[n].inputs[0]).out.token in Tokens(nodes, n);
    } else {
      assert nodes[n].outputs[0] in nodes[n].outputs;
      assert nodes[n].outputs[0].out.token in Tokens(nodes, n);
    }
  }

  lemma SumsOfNothing(nodes: Nodes)
    ensures (forall t :: OutSum([], t) == 0 && InSum(nodes, [], t) == 0) && TokensIn(nodes, []) == {} && TokensOut([]) == {}
  {
  }

  /** Outputs minus inputs per token.  Fails on an empty slot. */
  method CalculateBalance(nodes: Nodes, n: Name) returns (balance: map<Token, int>, ok: bool)
    requires n in nodes
    ensures ok <==> AllFilled(nodes, nodes[n])
    ensures ok ==> forall t :: Get(balance, t) == Balance(nodes, nodes[n], t)
    ensures ok ==> balance.Keys == Tokens(nodes, n)
  {
    hide OutSum, InSum, TokensIn, TokensOut;
    var node := nodes[n];
    SumsOfNothing(nodes);
    var ins: map<Token, int>, outs: map<Token, int> := map[], map[];
    balance, ok := map[], true;
    var k := 0;
    while k < |node.inputs|
      invariant 0 <= k <= |node.inputs| && forall i :: i in node.inputs[..k] ==> SlotAt(nodes, i).Filled?
      invariant forall t :: Get(ins, t) == InSum(nodes, node.inputs[..k], t)
      invariant ins.Keys == TokensIn(nodes, node.inputs[..k])
    {
      var slot := SlotAt(nodes, node.inputs[k]);
      if slot.Empty? {
        ok := false;
        return;
      }
      assert node.inputs[..k + 1] == node.inputs[..k] + [node.inputs[k]];
      var more := ins[slot.out.token := Get(ins, slot.out.token) + slot.out.amount];
      forall t ensures Get(more, t) == InSum(nodes, node.inputs[..k + 1], t) {
        assert Get(more, t) == Get(ins, t) + Value(slot, t);
        InSumAppend(nodes, node.inputs[..k], node.inputs[k], t);
      }
      TokensInAppend(nodes, node.inputs[..k], node.inputs[k]);
      ins := more;
      k := k + 1;
    }
    assert node.inputs[..k] == node.inputs;
    k := 0;
    while k < |node.outputs|
      invariant 0 <= k <= |node.outputs| && forall s :: s in node.outputs[..k] ==> s.Filled?
      invariant forall t :: Get(outs, t) == OutSum(node.outputs[..k], t)
      invariant outs.Keys == TokensOut(node.outputs[..k])
    {
      var slot := node.outputs[k];
      assert slot == SlotAt(nodes, Input(n, k)) && slot in node.outputs;
      if slot.Empty? {
        ok := false;
        return;
      }
      assert node.outputs[..k + 1] == node.outputs[..k] + [slot];
      var more := outs[slot.out.token := Get(outs, slot.out.token) + slot.out.amount];
      forall t ensures Get(more, t) == OutSum(node.outputs[..k + 1], t) {
        assert Get(more, t) == Get(outs, t) + Value(slot, t);
        OutSumAppend(node.outputs[..k], slot, t);
      }
      TokensOutAppend(node.outputs[..k], slot);
      outs := more;
      k := k + 1;
    }
    assert node.outputs[..k] == node.outputs;
    balance := map t | t in ins.Keys + outs.Keys + node.balances.Keys :: Get(outs, t) - Get(ins, t);
  }

  /** The declared balance holds for token `t`. */
  ghost predicate BalancedFor(nodes: Nodes, n: Name, t: Token)
    requires n in nodes
  {
    Balance(nodes, nodes[n], t) == Get(nodes[n].balances, t)
  }

  ghost predicate Balanced(nodes: Nodes, n: Name)
    requires n in nodes
  {
    AllFilled(nodes, nodes[n]) && forall t :: BalancedFor(nodes, n, t)
  }

  /** Adds `amount` of `t` to the outputs of `n`. */
  method GiveOutput(nodes: Nodes, n: Name, amount: nat, t: Token) returns (nodes': Nodes)
    requires n in nodes && AllFilled(nodes, nodes[n])
    ensures Grown(nodes, nodes', {n}) && OnlyNew(nodes, nodes', t) && AllFilled(nodes', nodes'[n])
    ensures forall u :: Balance(nodes', nodes'[n], u) == Balance(nodes, nodes[n], u) + (if u == t then amount else 0)
    ensures nodes'[n].inputs == nodes[n].inputs
    ensures nodes[n].outputs == [] ==> nodes'[n].outputs == [Filled(Output(amount, t))]
  {
    var outputs, index := AddOutput(nodes[n].outputs, Output(amount, t));
    nodes' := nodes[n := nodes[n].(outputs := outputs)];
    forall u ensures InSum(nodes', nodes[n].inputs, u) == InSum(nodes, nodes[n].inputs, u) {
      InSumGrown(nodes, nodes', {n}, nodes[n].inputs, u);
    }
  }

  /** Adds `amount` of `t` to the inputs of `n`, from a fresh output of the issuer. */
  method GiveInput(nodes: Nodes, n: Name, amount: nat, t: Token) returns (nodes': Nodes)
    requires n in nodes && AllFilled(nodes, nodes[n]) && Issuer(t) in nodes && Issuer(t) != n
    ensures Grown(nodes, nodes', {n, Issuer(t)}) && OnlyNew(nodes, nodes', t) && AllFilled(nodes', nodes'[n])
    ensures forall u :: Balance(nodes', nodes'[n], u) == Balance(nodes, nodes[n], u) - (if u == t then amount else 0)
    ensures nodes'[n].outputs == nodes[n].outputs
    ensures var i := Issuer(t); nodes'[i].inputs == if t == Htr then AddInput(nodes[i].inputs, Input(GenesisBlock, 0)) else nodes[i].inputs
    ensures Gave(nodes, nodes', t, amount)
    ensures DummyClean(nodes) && n != Dummy && (t == Htr || Issuer(t) != Dummy) ==> DummyClean(nodes')
  {
    hide DummyClean;
    var more, input := FindTxIn(nodes, amount, t);
    var inputs := AddInput(more[n].inputs, input);
    assert input !in nodes[n].inputs;
    nodes' := more[n := more[n].(inputs := inputs)];
    assert Grown(more, nodes', {n});
    GrownTwice(nodes, more, nodes', {Issuer(t)}, {n});
    if DummyClean(more) && n != Dummy {
      CleanUntouched(more, nodes', {n});
    }
    forall u ensures InSum(nodes', inputs, u) == InSum(nodes, nodes[n].inputs, u) + (if u == t then amount else 0) {
      InSumGrown(nodes, nodes', {n, Issuer(t)}, nodes[n].inputs, u);
      InSumAppend(nodes', nodes[n].inputs, input, u);
    }
  }
}
