/** The steps of the balance-filling pass: one token, one node, one block, one created token, the dummy. */
module FillerSteps {
  import opened FillerSlots

  // ----- the nodes of a description -----

  ghost predicate IsToken(nodes: Nodes, t: Token) {
    t.Custom? ==> t.node in nodes && t.node != Dummy && nodes[t.node].kind.TokenCreation?
  }

  /** Every token that is mentioned or declared has its node; the dummy is there. */
  ghost predicate Declared(nodes: Nodes) {
    && Dummy in nodes && nodes[Dummy].kind == Transaction
    && (forall t :: Mentioned(nodes, t) ==> IsToken(nodes, t))
    && (forall n, t :: n in nodes && t in nodes[n].balances ==> IsToken(nodes, t))
  }

  lemma DeclaredGrown(nodes: Nodes, later: Nodes, touched: set<Name>, t: Token)
    requires Declared(nodes) && Grown(nodes, later, touched) && OnlyNew(nodes, later, t) && IsToken(nodes, t)
    ensures Declared(later)
  {
    forall u | Mentioned(later, u) ensures IsToken(later, u) {
      var i: Input :| SlotAt(later, i).Filled? && SlotAt(later, i).out.token == u;
      assert u == t || Mentioned(nodes, u);
    }
    forall n, u | n in later && u in later[n].balances ensures IsToken(later, u) {
      assert u in nodes[n].balances && IsToken(nodes, u);
    }
  }

  /** Later steps change no kind. */
  lemma KindsStay(nodes: Nodes, later: Nodes, touched: set<Name>)
    requires Grown(nodes, later, touched)
    ensures Issuers(later) == Issuers(nodes) && forall n :: Plain(nodes, n) ==> Plain(later, n)
    ensures forall t :: IsToken(nodes, t) ==> IsToken(later, t)
    ensures nodes.Keys == later.Keys && forall n :: n in nodes ==> later[n].balances == nodes[n].balances
  {
  }

  /** The nodes that issue outputs for others. */
  ghost function Issuers(nodes: Nodes): set<Name> {
    set n | n in nodes && (n == Dummy || nodes[n].kind.TokenCreation?)
  }

  ghost predicate Plain(nodes: Nodes, n: Name) {
    n in nodes && n != Dummy && (nodes[n].kind == Transaction || nodes[n].kind == OnChainBlueprint)
  }

  // ----- what issuers give away -----

  /** What the outputs of its issuer hold of a token. */
  ghost function Issued(nodes: Nodes, t: Token): int
    requires Issuer(t) in nodes
  {
    OutSum(nodes[Issuer(t)].outputs, t)
  }

  function AtLeastZero(x: int): nat {
    if x > 0 then x else 0
  }

  /** What a plain transaction has to take from the issuer of `t`. */
  ghost function Draw(nodes: Nodes, n: Name, t: Token): nat
    requires n in nodes
  {
    if Plain(nodes, n) then AtLeastZero(Balance(nodes, nodes[n], t) - Get(nodes[n].balances, t)) else 0
  }

  ghost function Drawn(nodes: Nodes, order: seq<Name>, t: Token): nat
    requires forall n :: n in order ==> n in nodes
  {
    if order == [] then 0 else Drawn(nodes, order[..|order| - 1], t) + Draw(nodes, order[|order| - 1], t)
  }

  /** What the third loop needs of the node of a token. */
  ghost predicate Payable(nodes: Nodes, n: Name)
    requires n in nodes && nodes[n].kind.TokenCreation?
  {
    || nodes[n].kind.given
    || (&& AllFilled(nodes, nodes[n]) && Tokens(nodes, n) <= {Htr, Custom(n)}
        && (nodes[n].kind.version == Deposit ==> Custom(n) in Tokens(nodes, n)))
  }

  /** The node of a token only gained outputs of that token. */
  ghost predicate StillPayable(nodes: Nodes, later: Nodes, n: Name)
    requires n in nodes && n in later && nodes[n].kind.TokenCreation?
  {
    && later[n].kind == nodes[n].kind && later[n].inputs == nodes[n].inputs
    && (forall u :: u != Custom(n) ==> OutSum(later[n].outputs, u) == OutSum(nodes[n].outputs, u))
    && (Payable(nodes, n) ==> Payable(later, n))
  }

  /** So it is for the nodes of all tokens. */
  ghost predicate TokensStay(nodes: Nodes, later: Nodes) {
    nodes.Keys == later.Keys && forall n :: IsToken(nodes, Custom(n)) ==> StillPayable(nodes, later, n)
  }

  lemma TokensStayNow(nodes: Nodes)
    ensures TokensStay(nodes, nodes)
  {
  }

  lemma TokensStayTwice(a: Nodes, b: Nodes, c: Nodes)
    requires TokensStay(a, b) && TokensStay(b, c)
    ensures TokensStay(a, c)
  {
    hide Payable;
    forall n | IsToken(a, Custom(n)) ensures StillPayable(a, c, n) {
      assert StillPayable(a, b, n) && IsToken(b, Custom(n));
      assert StillPayable(b, c, n);
    }
  }

  /** A token node that is not touched, or only gained an output of its token, stays payable. */
  lemma PayableGrown(nodes: Nodes, later: Nodes, touched: set<Name>, n: Name)
    requires Grown(nodes, later, touched) && n in nodes && nodes[n].kind.TokenCreation? && later[n].inputs == nodes[n].inputs
    requires forall s :: s in nodes[n].outputs && s.Filled? ==> s in later[n].outputs
    requires forall s :: s in later[n].outputs ==> s in nodes[n].outputs || (s.Filled? && s.out.token == Custom(n))
    ensures Payable(nodes, n) ==> Payable(later, n)
  {
    if !nodes[n].kind.given && Payable(nodes, n) {
      assert AllFilled(later, later[n]);
      TokensInGrown(nodes, later, touched, nodes[n].inputs);
      forall t | t in TokensOut(later[n].outputs) ensures t in TokensOut(nodes[n].outputs) || t == Custom(n) {
        var s :| s in later[n].outputs && s.Filled? && s.out.token == t;
      }
      forall t | t in TokensOut(nodes[n].outputs) ensures t in TokensOut(later[n].outputs) {
        var s :| s in nodes[n].outputs && s.Filled? && s.out.token == t;
        assert s in later[n].outputs;
      }
    }
  }

  lemma TokensInGrown(nodes: Nodes, later: Nodes, touched: set<Name>, inputs: seq<Input>)
    requires Grown(nodes, later, touched) && forall i :: i in inputs ==> SlotAt(nodes, i).Filled?
    ensures TokensIn(later, inputs) == TokensIn(nodes, inputs)
  {
    forall i | i in inputs ensures SlotAt(later, i) == SlotAt(nodes, i) {
    }
  }

  lemma IssuersAreOther(nodes: Nodes, n: Name)
    requires Declared(nodes) && n in nodes && n != Dummy && !nodes[n].kind.TokenCreation?
    ensures forall u :: IsToken(nodes, u) ==> Issuer(u) in nodes && Issuer(u) != n
  {
  }

  lemma IssuersUntouched(nodes: Nodes, later: Nodes, n: Name)
    requires Declared(nodes) && Grown(nodes, later, {n}) && n in nodes && n != Dummy && !nodes[n].kind.TokenCreation?
    ensures TokensStay(nodes, later)
    ensures forall u :: IsToken(nodes, u) ==> Issuer(u) in nodes && Issued(later, u) == Issued(nodes, u)
  {
    hide Payable;
    forall m | IsToken(nodes, Custom(m)) ensures StillPayable(nodes, later, m) {
      PayableGrown(nodes, later, {n}, m);
    }
  }

  lemma IssuerGave(nodes: Nodes, later: Nodes, n: Name, t: Token, amount: nat)
    requires Declared(nodes) && Grown(nodes, later, {n, Issuer(t)}) && n in nodes && n != Dummy && !nodes[n].kind.TokenCreation?
    requires IsToken(nodes, t) && Issuer(t) in nodes && Gave(nodes, later, t, amount)
    requires t.Custom? ==> later[Issuer(t)].inputs == nodes[Issuer(t)].inputs
    ensures TokensStay(nodes, later)
    ensures forall u :: IsToken(nodes, u) ==> Issuer(u) in nodes && Issued(later, u) == Issued(nodes, u) + (if u == t then amount else 0)
  {
    hide Payable, SlotAt, OutSum;
    forall m | IsToken(nodes, Custom(m)) ensures StillPayable(nodes, later, m) {
      PayableGrown(nodes, later, {n, Issuer(t)}, m);
    }
  }

  /** Takes the difference for one token away: a new output, or a new input from its issuer. */
  method BalanceToken(nodes: Nodes, n: Name, t: Token, diff: int) returns (nodes': Nodes)
    requires Declared(nodes) && Plain(nodes, n) && AllFilled(nodes, nodes[n]) && IsToken(nodes, t)
    ensures Declared(nodes') && Grown(nodes, nodes', Issuers(nodes) + {n}) && AllFilled(nodes', nodes'[n])
    ensures forall u :: Balance(nodes', nodes'[n], u) == Balance(nodes, nodes[n], u) - (if u == t then diff else 0)
    ensures DummyClean(nodes) ==> DummyClean(nodes')
    ensures nodes'.Keys == nodes.Keys && TokensStay(nodes, nodes')
    ensures forall u :: IsToken(nodes, u) ==> Issuer(u) in nodes && Issued(nodes', u) == Issued(nodes, u) + (if u == t then AtLeastZero(diff) else 0)
  {
    hide Balance, Mentioned, DummyClean, TokensStay, Gave, Issued;
    IssuersAreOther(nodes, n);
    if diff < 0 {
      nodes' := GiveOutput(nodes, n, -diff, t);
      IssuersUntouched(nodes, nodes', n);
      if DummyClean(nodes) {
        CleanUntouched(nodes, nodes', {n});
      }
    } else if diff > 0 {
      nodes' := GiveInput(nodes, n, diff, t);
      IssuerGave(nodes, nodes', n, t, diff);
    } else {
      nodes' := nodes;
      TokensStayNow(nodes);
    }
    DeclaredGrown(nodes, nodes', Issuers(nodes) + {n}, t);
  }

  lemma DrawsAre(nodes: Nodes, n: Name, balance: map<Token, int>)
    requires n in nodes && Plain(nodes, n) && balance.Keys == Tokens(nodes, n) && forall t :: Get(balance, t) == Balance(nodes, nodes[n], t)
    ensures forall t :: t in balance ==> Draw(nodes, n, t) == AtLeastZero(balance[t] - Get(nodes[n].balances, t))
    ensures forall t :: t !in balance ==> Draw(nodes, n, t) == 0
  {
    hide Balance;
  }

  /** Makes the declared balances of a plain transaction true, touching only issuers besides it. */
  method BalanceNode(nodes: Nodes, n: Name) returns (nodes': Nodes, ok: bool)
    requires Declared(nodes) && Plain(nodes, n)
    ensures ok <==> AllFilled(nodes, nodes[n])
    ensures ok ==> Declared(nodes') && Grown(nodes, nodes', Issuers(nodes) + {n}) && Balanced(nodes', n)
    ensures DummyClean(nodes) ==> DummyClean(nodes')
    ensures ok ==> TokensStay(nodes, nodes')
    ensures ok ==> forall u :: IsToken(nodes, u) ==> Issuer(u) in nodes && Issuer(u) in nodes' && Issued(nodes', u) == Issued(nodes, u) + Draw(nodes, n, u)
  {
    hide Midway, Balance, Mentioned, Grown, IsToken, AllFilled, Issuers, DummyClean, TokensStay, Issued, Declared, Draw, Tokens;
    nodes' := nodes;
    var balance;
    balance, ok := CalculateBalance(nodes, n);
    if !ok {
      return;
    }
    MidwayStart(nodes, n, balance);
    var rest := balance.Keys;
    while rest != {}
      invariant rest <= balance.Keys && n in nodes' && Midway(nodes, nodes', n, balance, rest)
      decreases rest
    {
      var t :| t in rest;
      ghost var before := nodes';
      MidwayParts(nodes, nodes', n, balance, rest);
      nodes' := BalanceToken(nodes', n, t, balance[t] - Get(nodes[n].balances, t));
      MidwayNext(nodes, before, nodes', n, balance, rest, t);
      rest := rest - {t};
    }
    MidwayEnd(nodes, nodes', n, balance);
  }

  /** `nodes'` is `nodes` with the tokens of `balance` outside `rest` balanced for `n`. */
  ghost predicate Midway(nodes: Nodes, nodes': Nodes, n: Name, balance: map<Token, int>, rest: set<Token>)
    requires n in nodes && n in nodes'
  {
    && nodes'.Keys == nodes.Keys && Declared(nodes) && Declared(nodes') && Plain(nodes, n) && Plain(nodes', n)
    && Grown(nodes, nodes', Issuers(nodes) + {n}) && AllFilled(nodes', nodes'[n])
    && (DummyClean(nodes) ==> DummyClean(nodes')) && TokensStay(nodes, nodes')
    && rest <= balance.Keys && (forall t :: t in balance ==> IsToken(nodes', t))
    && (forall t :: if t in rest then Balance(nodes', nodes'[n], t) == balance[t] else BalancedFor(nodes', n, t))
    && (forall t :: t in balance ==> Draw(nodes, n, t) == AtLeastZero(balance[t] - Get(nodes[n].balances, t)))
    && (forall u :: IsToken(nodes, u) ==>
          Issuer(u) in nodes && Issued(nodes', u) == Issued(nodes, u) + if u in rest then 0 else Draw(nodes, n, u))
  }

  lemma MidwayStart(nodes: Nodes, n: Name, balance: map<Token, int>)
    requires Declared(nodes) && Plain(nodes, n) && AllFilled(nodes, nodes[n])
    requires balance.Keys == Tokens(nodes, n) && forall t :: Get(balance, t) == Balance(nodes, nodes[n], t)
    ensures Midway(nodes, nodes, n, balance, balance.Keys)
  {
    hide Balance, Mentioned, Grown, AllFilled, DummyClean, TokensStay, Issued;
    IssuersAreOther(nodes, n);
    TokensStayNow(nodes);
    GrownNot(nodes, Issuers(nodes) + {n});
    TokensMentioned(nodes, n);
    DrawsAre(nodes, n, balance);
  }

  lemma MidwayParts(nodes: Nodes, nodes': Nodes, n: Name, balance: map<Token, int>, rest: set<Token>)
    requires n in nodes && n in nodes' && Midway(nodes, nodes', n, balance, rest)
    ensures Declared(nodes') && Plain(nodes', n) && AllFilled(nodes', nodes'[n]) && forall t :: t in rest ==> IsToken(nodes', t)
  {
    hide Declared, Grown, TokensStay, DummyClean, AllFilled, Balance, Issued, Draw, IsToken;
  }

  lemma MidwayNext(nodes: Nodes, before: Nodes, nodes': Nodes, n: Name, balance: map<Token, int>, rest: set<Token>, t: Token)
    requires n in nodes && n in before && n in nodes' && Midway(nodes, before, n, balance, rest) && t in rest
    requires Declared(nodes') && Grown(before, nodes', Issuers(before) + {n}) && AllFilled(nodes', nodes'[n])
    requires forall u :: Balance(nodes', nodes'[n], u) == Balance(before, before[n], u) - (if u == t then balance[t] - Get(nodes[n].balances, t) else 0)
    requires (DummyClean(before) ==> DummyClean(nodes')) && TokensStay(before, nodes')
    requires before.Keys == nodes'.Keys
    requires forall u :: IsToken(before, u) ==>
               Issuer(u) in before && Issued(nodes', u) == Issued(before, u) + (if u == t then AtLeastZero(balance[t] - Get(nodes[n].balances, t)) else 0)
    ensures Midway(nodes, nodes', n, balance, rest - {t})
  {
    hide Declared, Grown, TokensStay, DummyClean, AllFilled, Balance, Issued, Draw, IsToken, Issuers, AtLeastZero;
    var touched := Issuers(nodes) + {n};
    KindsStay(nodes, before, touched);
    GrownTwice(nodes, before, nodes', touched, touched);
    assert touched + touched == touched;
    KindsStay(nodes, nodes', touched);
    KindsStay(before, nodes', touched);
    TokensStayTwice(nodes, before, nodes');
  }

  lemma MidwayEnd(nodes: Nodes, nodes': Nodes, n: Name, balance: map<Token, int>)
    requires n in nodes && n in nodes' && Midway(nodes, nodes', n, balance, {})
    ensures Declared(nodes') && Grown(nodes, nodes', Issuers(nodes) + {n}) && Balanced(nodes', n) && TokensStay(nodes, nodes')
    ensures DummyClean(nodes) ==> DummyClean(nodes')
    ensures forall u :: IsToken(nodes, u) ==> Issuer(u) in nodes && Issuer(u) in nodes' && Issued(nodes', u) == Issued(nodes, u) + Draw(nodes, n, u)
  {
    hide Declared, Grown, TokensStay, DummyClean, AllFilled, Balance, Issued, Draw, IsToken, Issuers;
  }

  // ----- blocks -----

  /** What the pass promises of a finished node; token nodes are finished later. */
  ghost predicate Settled(nodes: Nodes, n: Name, reward: nat)
    requires n in nodes
  {
    && (Plain(nodes, n) ==> Balanced(nodes, n))
    && (nodes[n].kind == Block ==> AllFilled(nodes, nodes[n]) && nodes[n].inputs == [] && OutSum(nodes[n].outputs, Htr) == reward)
  }

  lemma SettledGrown(nodes: Nodes, later: Nodes, touched: set<Name>, n: Name, reward: nat)
    requires Grown(nodes, later, touched) && n in nodes && n !in touched && Settled(nodes, n, reward)
    ensures n in later && Settled(later, n, reward)
  {
    hide Balance, SlotAt;
    if Plain(nodes, n) {
      forall t ensures AllFilled(later, later[n]) && BalancedFor(later, n, t) {
        assert BalancedFor(nodes, n, t);
        BalanceGrown(nodes, later, touched, n, t);
      }
    }
    if nodes[n].kind == Block {
      BalanceGrown(nodes, later, touched, n, Htr);
    }
  }

  /** A block that had no output pays the reward in one and nothing else. */
  ghost predicate RewardOnly(nodes: Nodes, later: Nodes, n: Name, reward: nat)
    requires n in nodes && n in later
  {
    nodes[n].kind == Block && nodes[n].outputs == [] ==> later[n].outputs == if reward > 0 then [Filled(Output(reward, Htr))] else []
  }

  /** Tops the single output of a block up to the reward. */
  method FillBlock(nodes: Nodes, n: Name, reward: nat) returns (nodes': Nodes, ok: bool)
    requires Declared(nodes) && n in nodes && n != Dummy && nodes[n].kind == Block
    ensures ok <==> && nodes[n].inputs == [] && |nodes[n].outputs| <= 1 && AllFilled(nodes, nodes[n])
                    && Tokens(nodes, n) <= {Htr} && 0 <= Balance(nodes, nodes[n], Htr) <= reward
    ensures ok ==> Declared(nodes') && Grown(nodes, nodes', {n}) && Settled(nodes', n, reward)
    ensures ok ==> n in nodes' && RewardOnly(nodes, nodes', n, reward)
    ensures DummyClean(nodes) ==> DummyClean(nodes')
  {
    hide DummyClean, Mentioned, SlotAt, IsToken, Tokens;
    nodes', ok := nodes, false;
    if |nodes[n].inputs| > 0 || |nodes[n].outputs| > 1 {
      return;
    }
    var balance, filled := CalculateBalance(nodes, n);
    var diff := Get(balance, Htr);
    if !filled || !(balance.Keys <= {Htr}) || diff < 0 || diff > reward {
      return;
    }
    ok := true;
    GrownNot(nodes, {n});
    if diff < reward {
      nodes' := GiveOutput(nodes, n, reward - diff, Htr);
      if DummyClean(nodes) {
        CleanUntouched(nodes, nodes', {n});
      }
      HtrIsToken(nodes);
      DeclaredGrown(nodes, nodes', {n}, Htr);
    }
    BlockSum(nodes', n);
  }

  lemma HtrIsToken(nodes: Nodes)
    ensures IsToken(nodes, Htr)
  {
  }

  lemma BlockSum(nodes: Nodes, n: Name)
    requires n in nodes && nodes[n].inputs == []
    ensures Balance(nodes, nodes[n], Htr) == OutSum(nodes[n].outputs, Htr)
  {
  }

  // ----- created tokens -----

  ghost function DepositOf(nodes: Nodes, n: Name, deposit: int -> nat): nat
    requires n in nodes && nodes[n].kind.TokenCreation?
  {
    if nodes[n].kind.version == Deposit then deposit(Balance(nodes, nodes[n], Custom(n))) else 0
  }

  /** The native balance of a created token is what is declared minus its deposit. */
  ghost predicate TokenPaid(nodes: Nodes, n: Name, deposit: int -> nat)
    requires n in nodes
  {
    nodes[n].kind.TokenCreation? && !nodes[n].kind.given ==>
      && AllFilled(nodes, nodes[n])
      && Balance(nodes, nodes[n], Htr) == Get(nodes[n].balances, Htr) - DepositOf(nodes, n, deposit)
  }

  lemma TokenPaidGrown(nodes: Nodes, later: Nodes, touched: set<Name>, n: Name, deposit: int -> nat)
    requires Grown(nodes, later, touched) && n in nodes && n !in touched && TokenPaid(nodes, n, deposit)
    ensures n in later && TokenPaid(later, n, deposit)
  {
    hide Balance, SlotAt;
    if nodes[n].kind.TokenCreation? && !nodes[n].kind.given {
      BalanceGrown(nodes, later, touched, n, Htr);
      BalanceGrown(nodes, later, touched, n, Custom(n));
    }
  }

  /** What the node of a token has to take from the dummy. */
  ghost function TokenDraw(nodes: Nodes, n: Name, deposit: int -> nat): nat
    requires n in nodes
  {
    if nodes[n].kind.TokenCreation? && !nodes[n].kind.given && n != Dummy
    then AtLeastZero(Balance(nodes, nodes[n], Htr) - (Get(nodes[n].balances, Htr) - DepositOf(nodes, n, deposit)))
    else 0
  }

  method FillToken(nodes: Nodes, n: Name, deposit: int -> nat) returns (nodes': Nodes, ok: bool)
    requires Declared(nodes) && n in nodes && n != Dummy && nodes[n].kind.TokenCreation?
    ensures ok <==> Payable(nodes, n)
    ensures ok ==> Declared(nodes') && Grown(nodes, nodes', {n, Dummy}) && TokenPaid(nodes', n, deposit)
    ensures DummyClean(nodes) ==> DummyClean(nodes')
    ensures ok ==> Dummy in nodes' && Issued(nodes', Htr) == Issued(nodes, Htr) + TokenDraw(nodes, n, deposit)
  {
    hide DummyClean, Mentioned, SlotAt, IsToken, Balance, Tokens, OutSum;
    nodes', ok := nodes, true;
    GrownNot(nodes, {n, Dummy});
    if nodes[n].kind.given {
      return;
    }
    var balance, filled := CalculateBalance(nodes, n);
    var pays := nodes[n].kind.version == Deposit;
    if !filled || !(balance.Keys <= {Htr, Custom(n)}) || (pays && Custom(n) !in balance) {
      ok := false;
      return;
    }
    var target := Get(nodes[n].balances, Htr) - if pays then deposit(balance[Custom(n)]) else 0;
    var diff := Get(balance, Htr) - target;
    if diff < 0 {
      nodes' := GiveOutput(nodes, n, -diff, Htr);
      if DummyClean(nodes) {
        CleanUntouched(nodes, nodes', {n});
      }
    } else if diff > 0 {
      nodes' := GiveInput(nodes, n, diff, Htr);
    }
    HtrIsToken(nodes);
    DeclaredGrown(nodes, nodes', {n, Dummy}, Htr);
  }

  // ----- the dummy -----

  /** The dummy gives back what it has not spent; an unused one is dropped. */
  method CloseDummy(nodes: Nodes) returns (nodes': Nodes, ok: bool)
    requires Declared(nodes)
    ensures ok <==> && AllFilled(nodes, nodes[Dummy])
                    && (Tokens(nodes, Dummy) == {} || (Tokens(nodes, Dummy) == {Htr} && Balance(nodes, nodes[Dummy], Htr) <= 0))
    ensures ok && Dummy in nodes' ==> Grown(nodes, nodes', {Dummy}) && Balance(nodes', nodes'[Dummy], Htr) == 0
    ensures ok && Dummy in nodes' ==> nodes'[Dummy].inputs == nodes[Dummy].inputs && AllFilled(nodes', nodes'[Dummy])
    ensures ok ==> (Dummy in nodes' <==> Tokens(nodes, Dummy) != {})
    ensures ok && Dummy !in nodes' ==> nodes' == nodes - {Dummy} && nodes[Dummy].outputs == [] && nodes[Dummy].inputs == []
  {
    hide Mentioned, SlotAt, IsToken, Balance, Tokens;
    nodes', ok := nodes, true;
    GrownNot(nodes, {Dummy});
    var balance, filled := CalculateBalance(nodes, Dummy);
    if filled && (nodes[Dummy].inputs != [] || nodes[Dummy].outputs != []) {
      SomeTokens(nodes, Dummy);
    }
    if !filled {
      ok := false;
    } else if balance.Keys == {} {
      nodes' := nodes - {Dummy};
    } else if balance.Keys != {Htr} || balance[Htr] > 0 {
      ok := false;
    } else if balance[Htr] < 0 {
      nodes' := GiveOutput(nodes, Dummy, -balance[Htr], Htr);
    }
  }

  /** Without outputs the dummy is spent by nobody. */
  lemma {:induction false} InSumDropped(nodes: Nodes, inputs: seq<Input>, t: Token)
    requires Dummy in nodes && nodes[Dummy].outputs == []
    ensures InSum(nodes - {Dummy}, inputs, t) == InSum(nodes, inputs, t)
  {
    if inputs != [] {
      InSumDropped(nodes, inputs[..|inputs| - 1], t);
    }
  }

  lemma SettledDropped(nodes: Nodes, n: Name, reward: nat, deposit: int -> nat)
    requires Dummy in nodes && nodes[Dummy].outputs == [] && n in nodes && n != Dummy
    requires Settled(nodes, n, reward) && TokenPaid(nodes, n, deposit)
    ensures var nodes' := nodes - {Dummy}; n in nodes' && Settled(nodes', n, reward) && TokenPaid(nodes', n, deposit)
  {
    var nodes' := nodes - {Dummy};
    forall t ensures Balance(nodes', nodes'[n], t) == Balance(nodes, nodes[n], t) {
      InSumDropped(nodes, nodes[n].inputs, t);
    }
    assert AllFilled(nodes, nodes[n]) ==> AllFilled(nodes', nodes'[n]);
    if Plain(nodes, n) {
      forall t ensures BalancedFor(nodes', n, t) {
        assert BalancedFor(nodes, n, t);
      }
    }
  }
}
