/** A newcomer among the conflicts: what it changes before anything is decided, and the checks that
settle it. */
module Settlement {
  import opened Wrappers
  import opened Graph
  import opened Traversal
  import opened Ledger
  import opened Voidance
  import opened Confirmation
  import opened TransactionConsensus
  import opened Arrival

  lemma OldConflicts(inputs: Inputs, conf: Conflicts, conf': Conflicts, id: Id, ins: set<TxInput>, v: Id)
    requires ConflictsExact(inputs, conf) && id !in inputs && ConflictsExact(inputs[id := ins], conf') && v in conf
    ensures forall c :: c in conf'[v] <==> c in conf[v] || (c == id && v in conf'[id])
  {
    var inputs' := inputs[id := ins];
    forall c ensures c in conf'[v] <==> c in conf[v] || (c == id && v in conf'[id]) {
      if c in inputs {
        assert ShareInput(inputs', v, c) <==> ShareInput(inputs, v, c);
      }
      if c == id {
        assert ShareInput(inputs', v, id) <==> ShareInput(inputs', id, v);
      }
    }
  }

  /** `conf'` is `conf` with a newcomer `id`: old pairs stay, new pairs involve `id`. */
  ghost predicate Joined(conf: Conflicts, conf': Conflicts, id: Id) {
    && id !in conf && id in conf' && conf'.Keys == conf.Keys + {id}
    && (forall v, c {:trigger c in conf'[v]} :: v in conf ==> (c in conf'[v] <==> c in conf[v] || (c == id && v in conf'[id])))
    && (forall c :: c in conf'[id] ==> c in conf)
  }

  lemma ConflictsJoined(inputs: Inputs, conf: Conflicts, conf': Conflicts, id: Id, ins: set<TxInput>)
    requires ConflictsExact(inputs, conf) && id !in inputs && ConflictsExact(inputs[id := ins], conf')
    ensures Joined(conf, conf', id)
  {
    forall v, c | v in conf ensures c in conf'[v] <==> c in conf[v] || (c == id && v in conf'[id]) {
      OldConflicts(inputs, conf, conf', id, ins, v);
    }
  }

  lemma RivalsAfterArrival(blocks: set<Id>, conf: Conflicts, conf': Conflicts, vb: VoidedBy, vb': VoidedBy, id: Id)
    requires Joined(conf, conf', id) && Symmetric(conf')
    requires PairVoided(conf, vb) && VoidedCarryOwn(conf, vb, {}) && SelfVoidedHaveCause(blocks, conf, vb)
    requires vb'.Keys == vb.Keys + {id} && forall v :: v in vb ==> vb'[v] == vb[v]
    requires id in vb'[id] <==> conf'[id] != {}
    ensures PairVoided(conf', vb') && VoidedCarryOwn(conf', vb', conf'[id]) && SelfVoidedHaveCause(blocks, conf', vb')
  {
    forall v | v in vb' && vb'[v] != {} && conf'[v] != {} ensures v in vb'[v] || v in conf'[id] {
      if v != id {
        var c :| c in conf'[v];
        assert v in conf'[id] || c in conf[v];
      }
    }
    forall v | v in vb' && v in vb'[v] ensures v in blocks || conf'[v] != {} {
      if v != id && v !in blocks {
        var c :| c in conf[v];
        assert c in conf'[v];
      }
    }
    forall v, c | v in conf' && c in conf'[v] ensures c in vb' && (v in vb'[v] || c in vb'[c]) {
      assert c in conf' && v in conf'[c];
    }
  }

  /** Right after a transaction entered, only its rivals may lack their own hash. */
  lemma KeptAfterArrival(d: Dag, e: Dag, blocks: set<Id>, inputs: Inputs, conf: Conflicts, conf': Conflicts,
                         vb: VoidedBy, vb': VoidedBy, id: Id, ins: set<TxInput>)
    requires VoidanceKept(d, blocks, conf, vb, {}) && ConflictsExact(inputs, conf) && id !in inputs
    requires ConflictsExact(inputs[id := ins], conf')
    requires e.Valid() && e.deps.Keys == conf'.Keys && Exact(e, vb')
    requires vb'.Keys == vb.Keys + {id} && forall v :: v in vb ==> vb'[v] == vb[v]
    requires id in vb'[id] <==> conf'[id] != {}
    ensures VoidanceKept(e, blocks, conf', vb', conf'[id])
  {
    ConflictsSymmetric(inputs[id := ins], conf');
    ConflictsJoined(inputs, conf, conf', id, ins);
    RivalsAfterArrival(blocks, conf, conf', vb, vb', id);
  }

  /** Stored weights follow the true ones.  These grow by `w` on `above`, the stored ones on `inherited`;
  the two agree on what is voided in a conflict. */
  lemma WeightsFollow(weights: map<Id, nat>, weights': map<Id, nat>, conf: Conflicts, conf': Conflicts, vb: VoidedBy, vb': VoidedBy,
                      acc: map<Id, nat>, acc1: map<Id, nat>, id: Id, w: nat, inherited: set<Id>, above: set<Id>)
    requires WeightsKept(weights, conf, vb, acc) && id !in vb && acc1.Keys == acc.Keys
    requires weights'.Keys == conf'.Keys == vb'.Keys == vb.Keys + {id}
    requires forall v :: v in vb ==> vb'[v] == vb[v]
    requires forall v :: v in weights ==> weights'[v] == weights[v] + if v in above then w else 0
    requires weights'[id] == w
    requires forall x :: x in acc ==> acc1[x] == acc[x] + if x in inherited then w else 0
    requires forall v :: v in vb && v in inherited ==> v in above
    requires forall v :: v in vb && v in vb[v] && conf'[v] != {} ==> conf[v] != {} && (v in above ==> v in inherited)
    ensures WeightsKept(weights', conf', vb', acc1[id := w])
  {
  }

  /** Every vertex with a path to the newcomer weighs more by its work. */
  lemma WeightsGrow(f: Dag, work: map<Id, nat>, id: Id, deps: set<Id>, ts: nat, w: nat) returns (above: set<Id>)
    requires Acceptable(f, id, deps, ts) && work.Keys == f.deps.Keys && Extended(f, id, deps, ts).Valid()
    ensures forall v :: v in work ==> (v in above <==> Extended(f, id, deps, ts).Reaches(v, id))
    ensures var weights, weights' := Weights(f, work), Weights(Extended(f, id, deps, ts), work[id := w]);
            && weights.Keys == work.Keys && weights'.Keys == work.Keys + {id} && weights'[id] == w
            && forall v :: v in weights ==> weights'[v] == weights[v] + if v in above then w else 0
  {
    hide WorkOf, Dag.Reaches, Weights, Dag.Valid;
    var g := Extended(f, id, deps, ts);
    WeightsKeys(f, work);
    WeightsKeys(g, work[id := w]);
    above := set v | v in work && g.Reaches(v, id);
    WeightsAfterArrival(f, work, id, deps, ts, w, id);
    forall v | v in work ensures Weights(g, work[id := w])[v] == Weights(f, work)[v] + if v in above then w else 0 {
      WeightsAfterArrival(f, work, id, deps, ts, w, v);
    }
  }

  /** A voided transaction has no path to the newcomer through a block, so its weight grows exactly
  when the newcomer inherits its hash. */
  lemma VoidedAbove(e: Dag, g: Dag, blocks: set<Id>, vb': VoidedBy, id: Id, v: Id)
    requires Anchored(e, g, blocks, vb') && Exact(e, vb') && v in vb' && id in vb'
    ensures v in vb'[id] ==> g.Reaches(v, id)
    ensures v in vb'[v] && v !in blocks && g.Reaches(v, id) ==> v in vb'[id]
  {
    if v in vb'[id] {
      BareReaches(e, g, blocks, v, id);
    }
    if v in vb'[v] && v !in blocks && g.Reaches(v, id) {
      UnconfirmedReaches(e, g, blocks, v, id);
    }
  }

  lemma WeightsKeptAfterArrival(f: Dag, e: Dag, g: Dag, blocks: set<Id>, work: map<Id, nat>, work': map<Id, nat>,
                                conf: Conflicts, conf': Conflicts, vb: VoidedBy, vb': VoidedBy, acc: map<Id, nat>, acc1: map<Id, nat>,
                                id: Id, deps: set<Id>, ts: nat, w: nat, inherited: set<Id>)
    requires Acceptable(f, id, deps, ts) && work.Keys == conf.Keys == vb.Keys == acc.Keys == f.deps.Keys
    requires g == Extended(f, id, deps, ts) && g.Valid() && work' == work[id := w] && work'.Keys == g.deps.Keys
    requires conf'.Keys == vb'.Keys == vb.Keys + {id} && e.Valid() && Exact(e, vb') && Anchored(e, g, blocks, vb')
    requires forall v :: v in vb ==> vb'[v] == vb[v] && (v in inherited <==> v in vb'[id])
    requires WeightsKept(Weights(f, work), conf, vb, acc) && acc1.Keys == acc.Keys
    requires forall x :: x in acc ==> acc1[x] == acc[x] + if x in inherited then w else 0
    requires forall v :: v in vb && v in vb[v] && conf'[v] != {} ==> conf[v] != {} && v !in blocks
    ensures WeightsKept(Weights(g, work'), conf', vb', acc1[id := w])
  {
    hide Weights, WeightsKept, Exact, Anchored, Dag.Reaches, Extended;
    var above := WeightsGrow(f, work, id, deps, ts, w);
    forall v | v in vb
      ensures v in inherited ==> v in above
      ensures v in vb[v] && conf'[v] != {} && v in above ==> v in inherited
    {
      VoidedAbove(e, g, blocks, vb', id, v);
    }
    WeightsFollow(Weights(f, work), Weights(g, work'), conf, conf', vb, vb', acc, acc1, id, w, inherited, above);
  }

  // ----- settling an arrival -----

  /** Every transaction of `list` was checked in the state the one before it left, and none of the checks
  would have voided a confirmed transaction. */
  ghost predicate CheckedInTurn(d: Dag, f: Dag, blocks: set<Id>, work: map<Id, nat>, conf: Conflicts, list: seq<Id>,
                                states: seq<VoidedBy>, asks: seq<set<Id>>)
  {
    && |states| == |list| + 1 && |asks| == |list|
    && forall i :: 0 <= i < |list| ==> CheckedFreely(d, f, blocks, work, conf, states[i], states[i + 1], list[i], asks[i])
  }

  ghost predicate CheckedFreely(d: Dag, f: Dag, blocks: set<Id>, work: map<Id, nat>, conf: Conflicts, vb: VoidedBy, vb': VoidedBy,
                                t: Id, asked: set<Id>)
  {
    Checked(d, f, work, conf, vb, vb', t, asked) && !OverturnsIn(f, blocks, work, conf, vb, t)
  }

  ghost function All(asks: seq<set<Id>>): set<Id> {
    if asks == [] then {} else All(asks[..|asks| - 1]) + asks[|asks| - 1]
  }

  /** The first `n` members of `list` were checked in turn, from `vb` to `vb'`, asking for `checks`. */
  ghost predicate Through(d: Dag, f: Dag, blocks: set<Id>, work: map<Id, nat>, conf: Conflicts, list: seq<Id>, n: nat,
                          vb: VoidedBy, vb': VoidedBy, checks: set<Id>, states: seq<VoidedBy>, asks: seq<set<Id>>)
  {
    && n <= |list| && |states| == n + 1 && states[0] == vb && states[n] == vb' && checks == All(asks)
    && CheckedInTurn(d, f, blocks, work, conf, list[..n], states, asks)
  }

  lemma ThroughNone(d: Dag, f: Dag, blocks: set<Id>, work: map<Id, nat>, conf: Conflicts, list: seq<Id>, vb: VoidedBy)
    ensures Through(d, f, blocks, work, conf, list, 0, vb, vb, {}, [vb], [])
  {
  }

  lemma ThroughNext(d: Dag, f: Dag, blocks: set<Id>, work: map<Id, nat>, conf: Conflicts, list: seq<Id>, n: nat, vb: VoidedBy, vb1: VoidedBy,
                    vb': VoidedBy, checks: set<Id>, asked: set<Id>, states: seq<VoidedBy>, asks: seq<set<Id>>)
    requires n < |list| && Through(d, f, blocks, work, conf, list, n, vb, vb1, checks, states, asks)
    requires CheckedFreely(d, f, blocks, work, conf, vb1, vb', list[n], asked)
    ensures Through(d, f, blocks, work, conf, list, n + 1, vb, vb', checks + asked, states + [vb'], asks + [asked])
  {
    hide CheckedFreely;
    assert (asks + [asked])[..|asks|] == asks;
    var now, more := states + [vb'], asks + [asked];
    forall j | 0 <= j < n + 1 ensures CheckedFreely(d, f, blocks, work, conf, now[j], now[j + 1], list[..n + 1][j], more[j]) {
      if j < n {
        assert CheckedFreely(d, f, blocks, work, conf, states[j], states[j + 1], list[..n][j], asks[j]);
      }
    }
  }

  /** Checks, in turn, the conflicts of `list`; stops, with `ok` false, exactly before a confirmed
  transaction would be voided. */
  method CheckAll(d: Dag, f: Dag, blocks: set<Id>, work: map<Id, nat>, conf: Conflicts, vb: VoidedBy, acc: map<Id, nat>,
                  ghost late: set<Id>, list: seq<Id>)
    returns (vb': VoidedBy, acc': map<Id, nat>, checks: set<Id>, ok: bool, ghost n: nat, ghost states: seq<VoidedBy>, ghost asks: seq<set<Id>>)
    requires Ready(d, f, blocks, work, conf, vb, acc, late) && Elements(list) <= vb.Keys
    ensures Ready(d, f, blocks, work, conf, vb', acc', late) && vb'.Keys == acc'.Keys == vb.Keys && LonersKept(conf, vb, vb')
    ensures Through(d, f, blocks, work, conf, list, n, vb, vb', checks, states, asks) && n <= |list| && (ok <==> n == |list|)
    ensures !ok ==> OverturnsIn(f, blocks, work, conf, vb', list[n]) && Challenged(f, blocks, work, conf)
  {
    hide Ready, OverturnsIn, ResolvedIn, Challenged, LonersKept, Through, Checked;
    vb', acc', checks, ok, n, states, asks := vb, acc, {}, true, 0, [vb], [];
    ReadyKeys(d, f, blocks, work, conf, vb, acc, late);
    LonersKeptNow(conf, vb);
    ThroughNone(d, f, blocks, work, conf, list, vb);
    for i := 0 to |list|
      invariant vb'.Keys == acc'.Keys == vb.Keys && LonersKept(conf, vb, vb') && ok && n == i
      invariant Ready(d, f, blocks, work, conf, vb', acc', late)
      invariant Through(d, f, blocks, work, conf, list, n, vb, vb', checks, states, asks)
    {
      assert list[i] in Elements(list);
      var more;
      ghost var vb1, acc1 := vb', acc';
      vb', acc', more, ok := CheckConflicts(d, f, blocks, work, conf, vb', acc', late, list[i]);
      LonersKeptTwice(conf, vb, vb1, vb');
      if !ok {
        OverturnsChallenged(d, f, blocks, work, conf, vb1, acc1, late, list[i]);
        return;
      }
      ThroughNext(d, f, blocks, work, conf, list, n, vb, vb1, vb', checks, more, states, asks);
      checks, n, states, asks := checks + more, n + 1, states + [vb'], asks + [more];
    }
  }

  lemma ReadyKeys(d: Dag, f: Dag, blocks: set<Id>, work: map<Id, nat>, conf: Conflicts, vb: VoidedBy, acc: map<Id, nat>, late: set<Id>)
    requires Ready(d, f, blocks, work, conf, vb, acc, late)
    ensures conf.Keys == vb.Keys == acc.Keys
  {
    hide Ready;
    ReadyParts(d, f, blocks, work, conf, vb, acc, late);
  }

  lemma OneLess(d: Dag, blocks: set<Id>, conf: Conflicts, vb: VoidedBy, list: seq<Id>, i: nat)
    requires i < |list| && list[i] in vb && VoidanceKept(d, blocks, conf, vb, Elements(list[i..]))
    requires vb[list[i]] == {} || list[i] in vb[list[i]]
    ensures VoidanceKept(d, blocks, conf, vb, Elements(list[i + 1..]))
  {
    assert list[i..] == [list[i]] + list[i + 1..];
  }

  lemma KeptAfterOneMark(d: Dag, blocks: set<Id>, conf: Conflicts, vb: VoidedBy, vb': VoidedBy, late: set<Id>, c: Id)
    requires VoidanceKept(d, blocks, conf, vb, late) && c in vb && conf[c] != {}
    requires c in vb[c] ==> vb' == vb
    requires c !in vb[c] ==> Pushed(d, vb, vb', d.Desc(c), c, MustVoid(d, conf, vb, c, c))
    ensures VoidanceKept(d, blocks, conf, vb', late) && c in vb'[c] && LonersKept(conf, vb, vb')
  {
    NothingMarked(d, conf, vb);
    MarkedStep(d, conf, vb, vb, vb', {}, c);
    KeptAfterMarking(d, blocks, conf, vb, vb', late, {} + {c});
    assert d.Reaches(c, c);
  }

  /** A voided rival is not confirmed, so marking it voids nothing confirmed. */
  lemma AnchoredAfterOneMark(d: Dag, f: Dag, blocks: set<Id>, conf: Conflicts, vb: VoidedBy, vb': VoidedBy, c: Id)
    requires Anchored(d, f, blocks, vb) && conf.Keys == vb.Keys == d.deps.Keys && Exact(d, vb)
    requires c in vb && conf[c] != {} && vb[c] != {} && c !in blocks
    requires c in vb[c] ==> vb' == vb
    requires c !in vb[c] ==> Pushed(d, vb, vb', d.Desc(c), c, MustVoid(d, conf, vb, c, c))
    ensures !Confirmed(f, blocks, c) && Anchored(d, f, blocks, vb')
  {
    NothingMarked(d, conf, vb);
    MarkedStep(d, conf, vb, vb, vb', {}, c);
    hide SelfGrown, Marked, Exact, Pushed, MustVoid, Dag.Reaches;
    AnchoredAfterMarking(d, f, blocks, conf, vb, vb', {} + {c});
  }

  /** Nobody starts or stops to be executed, or to be voided by itself alone. */
  ghost predicate SameStanding(vb: VoidedBy, vb': VoidedBy) {
    && vb.Keys == vb'.Keys
    && forall x :: x in vb ==> (vb'[x] == {} <==> vb[x] == {}) && (vb'[x] == {x} <==> vb[x] == {x})
  }

  lemma SameStandingNow(vb: VoidedBy)
    ensures SameStanding(vb, vb)
  {
  }

  lemma SameStandingTwice(a: VoidedBy, b: VoidedBy, c: VoidedBy)
    requires SameStanding(a, b) && SameStanding(b, c)
    ensures SameStanding(a, c)
  {
  }

  /** What comes after a voided transaction is voided by whatever voids that, so marking it changes
  nobody's standing. */
  lemma StandingAfterOneMark(d: Dag, conf: Conflicts, vb: VoidedBy, vb': VoidedBy, c: Id)
    requires d.Valid() && conf.Keys == vb.Keys == d.deps.Keys && Exact(d, vb) && c in vb && vb[c] != {}
    requires c in vb[c] ==> vb' == vb
    requires c !in vb[c] ==> Pushed(d, vb, vb', d.Desc(c), c, MustVoid(d, conf, vb, c, c))
    ensures SameStanding(vb, vb')
  {
    if c !in vb[c] {
      var h :| h in vb[c];
      forall x | x in vb ensures (vb'[x] == {} <==> vb[x] == {}) && (vb'[x] == {x} <==> vb[x] == {x}) {
        if d.Reaches(c, x) {
          VoiderAfter(d, vb, h, c, x);
          assert h in vb'[x];
        } else {
          forall g | g in MustVoid(d, conf, vb, c, c) ensures !d.Reaches(g, x) {
            if d.Reaches(g, x) {
              ReachesTransitive(d, c, g, x);
            }
          }
          assert vb'[x] == vb[x];
        }
      }
    }
  }

  lemma VoiderAfter(d: Dag, vb: VoidedBy, h: Id, c: Id, x: Id)
    requires d.Valid() && vb.Keys == d.deps.Keys && Exact(d, vb) && c in vb && x in vb && h in vb[c] && h != c && d.Reaches(c, x)
    ensures h in vb[x] && h != x
  {
    assert d.Reaches(h, c);
    ReachesTransitive(d, h, c, x);
    ReachesTimestamp(d, h, c);
    ReachesTimestamp(d, c, x);
  }

  lemma SameContest(f: Dag, blocks: set<Id>, work: map<Id, nat>, conf: Conflicts, vb: VoidedBy, vb': VoidedBy, t: Id)
    requires SameStanding(vb, vb')
    ensures OverturnsIn(f, blocks, work, conf, vb, t) <==> OverturnsIn(f, blocks, work, conf, vb', t)
  {
    hide Confirmed, Weights;
  }

  /** The members of `s` that are voided. */
  ghost function VoidedAmong(vb: VoidedBy, s: set<Id>): set<Id> {
    set c | c in s && c in vb && vb[c] != {}
  }

  lemma VoidedMarkStep(d: Dag, conf: Conflicts, vb: VoidedBy, vb1: VoidedBy, vb2: VoidedBy, s: set<Id>, c: Id)
    requires d.Valid() && conf.Keys == vb.Keys == vb1.Keys == d.deps.Keys && c in vb && conf[c] != {} && SameStanding(vb, vb1)
    requires SelfGrown(d, vb, vb1, Marked(d, conf, vb, VoidedAmong(vb, s)))
    requires vb1[c] == {} || c in vb1[c] ==> vb2 == vb1
    requires vb1[c] != {} && c !in vb1[c] ==> Pushed(d, vb1, vb2, d.Desc(c), c, MustVoid(d, conf, vb1, c, c))
    ensures SelfGrown(d, vb, vb2, Marked(d, conf, vb, VoidedAmong(vb, s + {c})))
  {
    hide SelfGrown, Marked, Pushed, MustVoid, Dag.Valid, Dag.Reaches;
    if vb[c] == {} {
      assert VoidedAmong(vb, s + {c}) == VoidedAmong(vb, s);
    } else {
      assert VoidedAmong(vb, s + {c}) == VoidedAmong(vb, s) + {c};
      MarkedStep(d, conf, vb, vb1, vb2, VoidedAmong(vb, s), c);
    }
  }

  /** Nobody executed comes after a voided transaction, so marking that demotes nobody. */
  lemma NothingDemoted(d: Dag, conf: Conflicts, vb: VoidedBy, c: Id)
    requires d.Valid() && conf.Keys == vb.Keys == d.deps.Keys && Exact(d, vb) && c in vb && vb[c] != {}
    ensures ConflictsOf(conf, Demoted(d, conf, vb, c)) == {}
  {
    var h :| h in vb[c];
    forall x | x in d.Desc(c) ensures vb[x] != {} {
      ReachesTransitive(d, h, c, x);
      assert h in vb[x];
    }
    assert Demoted(d, conf, vb, c) == {};
  }

  /** Gives every voided rival of a newcomer its own hash; afterwards no vertex lacks it. */
  method MarkVoidedRivals(d: Dag, f: Dag, ghost blocks: set<Id>, work: map<Id, nat>, conf: Conflicts, vb: VoidedBy, acc: map<Id, nat>,
                          list: seq<Id>)
    returns (vb': VoidedBy, acc': map<Id, nat>, checks: set<Id>)
    requires Ready(d, f, blocks, work, conf, vb, acc, Elements(list))
    requires forall c :: c in Elements(list) ==> c in conf && conf[c] != {}
    ensures Ready(d, f, blocks, work, conf, vb', acc', {}) && vb'.Keys == acc'.Keys == vb.Keys && LonersKept(conf, vb, vb')
    ensures SameStanding(vb, vb') && checks == {}
    ensures d.Valid() && conf.Keys == vb.Keys == d.deps.Keys && SelfGrown(d, vb, vb', Marked(d, conf, vb, VoidedAmong(vb, Elements(list))))
  {
    hide SameStanding, Ready, VoidanceKept, Anchored, Exact, WeightsKept, Weights, Symmetric, Dag.Valid, LonersKept, Confirmed;
    hide Marked, SelfGrown, Pushed, MustVoid, VoidedAmong;
    ReadyParts(d, f, blocks, work, conf, vb, acc, Elements(list));
    NoneMarked(d, conf, vb, list);
    vb', acc', checks := vb, acc, {};
    LonersKeptNow(conf, vb);
    SameStandingNow(vb);
    var i := 0;
    assert list[0..] == list;
    while i < |list|
      invariant 0 <= i <= |list| && vb'.Keys == acc'.Keys == vb.Keys && LonersKept(conf, vb, vb') && SameStanding(vb, vb')
      invariant Ready(d, f, blocks, work, conf, vb', acc', Elements(list[i..])) && checks == {}
      invariant SelfGrown(d, vb, vb', Marked(d, conf, vb, VoidedAmong(vb, Elements(list[..i]))))
    {
      var more;
      ghost var vb1 := vb';
      assert list[i] in Elements(list);
      vb', acc', more := MarkRivalIfVoided(d, f, blocks, work, conf, vb', acc', list, i);
      LonersKeptTwice(conf, vb, vb1, vb');
      assert list[..i + 1] == list[..i] + [list[i]];
      assert Elements(list[..i + 1]) == Elements(list[..i]) + {list[i]};
      VoidedMarkStep(d, conf, vb, vb1, vb', Elements(list[..i]), list[i]);
      SameStandingTwice(vb, vb1, vb');
      checks, i := checks + more, i + 1;
    }
    assert Elements(list[i..]) == {} && list[..i] == list;
  }

  lemma NoneMarked(d: Dag, conf: Conflicts, vb: VoidedBy, list: seq<Id>)
    requires d.Valid() && conf.Keys == vb.Keys == d.deps.Keys && Exact(d, vb)
    ensures SelfGrown(d, vb, vb, Marked(d, conf, vb, VoidedAmong(vb, Elements(list[..0]))))
  {
    assert VoidedAmong(vb, Elements(list[..0])) == {};
    NothingMarked(d, conf, vb);
  }

  /** A voided rival is never confirmed, so the case of a voided rival with a first block does not occur. */
  method MarkRivalIfVoided(d: Dag, f: Dag, ghost blocks: set<Id>, work: map<Id, nat>, conf: Conflicts, vb: VoidedBy, acc: map<Id, nat>,
                           list: seq<Id>, i: nat)
    returns (vb': VoidedBy, acc': map<Id, nat>, checks: set<Id>)
    requires i < |list| && list[i] in conf && conf[list[i]] != {}
    requires Ready(d, f, blocks, work, conf, vb, acc, Elements(list[i..]))
    ensures Ready(d, f, blocks, work, conf, vb', acc', Elements(list[i + 1..])) && vb'.Keys == acc'.Keys == vb.Keys
    ensures vb[list[i]] != {} ==> !Confirmed(f, blocks, list[i]) && list[i] in vb'[list[i]]
    ensures LonersKept(conf, vb, vb') && SameStanding(vb, vb') && checks == {}
    ensures vb[list[i]] == {} || list[i] in vb[list[i]] ==> vb' == vb
    ensures d.Valid() && conf.Keys == vb.Keys == d.deps.Keys
    ensures vb[list[i]] != {} && list[i] !in vb[list[i]] ==> Pushed(d, vb, vb', d.Desc(list[i]), list[i], MustVoid(d, conf, vb, list[i], list[i]))
  {
    hide ConflictsOf, Demoted, SameStanding, Ready, Exact, WeightsKept, Weights, Pushed, MustVoid, Dag.Reaches, Elements, Anchored, Confirmed, VoidanceKept, Dag.Valid, LonersKept;
    var c := list[i];
    vb', acc', checks := vb, acc, {};
    ReadyParts(d, f, blocks, work, conf, vb, acc, Elements(list[i..]));
    LonersKeptNow(conf, vb);
    SameStandingNow(vb);
    if vb[c] != {} {
      vb', acc', checks := MarkAsVoided(d, f, work, conf, vb, acc, c);
      KeptAfterOneMark(d, blocks, conf, vb, vb', Elements(list[i..]), c);
      AnchoredAfterOneMark(d, f, blocks, conf, vb, vb', c);
      StandingAfterOneMark(d, conf, vb, vb', c);
      NothingDemoted(d, conf, vb, c);
    }
    OneLess(d, blocks, conf, vb', list, i);
    ReadyAgain(d, f, blocks, work, conf, vb', acc', Elements(list[i + 1..]));
  }

  lemma RivalsHaveRivals(conf: Conflicts, id: Id, rivals: seq<Id>)
    requires Symmetric(conf) && id in conf && Elements(rivals) == conf[id]
    ensures forall c :: c in Elements(rivals) ==> c in conf && conf[c] != {}
  {
    forall c | c in Elements(rivals) ensures c in conf && conf[c] != {} {
      assert id in conf[c];
    }
  }

  lemma NoContest(f: Dag, blocks: set<Id>, work: map<Id, nat>, conf: Conflicts, vb: VoidedBy, t: Id)
    requires t in vb && vb[t] != {t}
    ensures !OverturnsIn(f, blocks, work, conf, vb, t)
  {
  }

  lemma NoRivals(f: Dag, blocks: set<Id>, work: map<Id, nat>, conf: Conflicts, vb: VoidedBy, t: Id)
    requires t in conf && conf[t] == {}
    ensures !OverturnsIn(f, blocks, work, conf, vb, t)
  {
  }

  /** How an arrival is settled: the voiders of the newcomer in some order with the state before, between
  and after their checks and what these ask for, the state once its voided rivals are marked, and what
  its own check asks for. */
  datatype Course = Course(voiders: seq<Id>, states: seq<VoidedBy>, asks: seq<set<Id>>, marked: VoidedBy, own: set<Id>)

  ghost predicate Follows(d: Dag, f: Dag, blocks: set<Id>, work: map<Id, nat>, conf: Conflicts, vb: VoidedBy, vb': VoidedBy,
                          id: Id, inherited: set<Id>, course: Course)
  {
    && Distinct(course.voiders) && Elements(course.voiders) == inherited - blocks
    && CheckedInTurn(d, f, blocks, work, conf, course.voiders, course.states, course.asks) && course.states[0] == vb
    && MarkedVoided(d, conf, course.states[|course.voiders|], course.marked, id)
    && CheckedFreely(d, f, blocks, work, conf, course.marked, vb', id, course.own)
  }

  ghost predicate MarkedVoided(d: Dag, conf: Conflicts, vb: VoidedBy, vb': VoidedBy, id: Id) {
    && d.Valid() && conf.Keys == vb.Keys == d.deps.Keys && id in conf && SameStanding(vb, vb')
    && SelfGrown(d, vb, vb', Marked(d, conf, vb, VoidedAmong(vb, conf[id])))
  }

  ghost function Asked(course: Course): set<Id> {
    All(course.asks) + course.own
  }

  /** The consensus work after a newcomer inherited: the conflicts of what voids it, its voided
  rivals, then its own conflicts. */
  method Settle(d: Dag, f: Dag, blocks: set<Id>, work: map<Id, nat>, conf: Conflicts, vb: VoidedBy, acc: map<Id, nat>,
                id: Id, inherited: set<Id>)
    returns (vb': VoidedBy, acc': map<Id, nat>, checks: set<Id>, ok: bool, ghost course: Course)
    requires id in conf && Ready(d, f, blocks, work, conf, vb, acc, conf[id]) && inherited <= vb.Keys
    ensures vb'.Keys == acc'.Keys == vb.Keys && LonersKept(conf, vb, vb')
    ensures ok ==> Ready(d, f, blocks, work, conf, vb', acc', {}) && ResolvedIn(f, work, conf, vb', id)
    ensures ok ==> Follows(d, f, blocks, work, conf, vb, vb', id, inherited, course) && checks == Asked(course)
    ensures !ok ==> Challenged(f, blocks, work, conf)
    ensures inherited <= blocks ==> (ok <==> !OverturnsIn(f, blocks, work, conf, vb, id))
    ensures forall t: Id :: inherited - blocks == {t} && OverturnsIn(f, blocks, work, conf, vb, t) ==> !ok
    ensures forall t: Id :: inherited - blocks == {t} && conf[id] == {} && !ok ==> OverturnsIn(f, blocks, work, conf, vb, t)
  {
    hide Follows, SameStanding, Ready, OverturnsIn, ResolvedIn, Challenged, CheckedFreely, CheckedInTurn, SelfGrown, VoidedAmong, Marked;
    hide LonersKept, Dag.Valid, All, Distinct, Elements;
    ReadyKeys(d, f, blocks, work, conf, vb, acc, conf[id]);
    var rivals := ListOf(conf[id]);
    RivalsReady(d, f, blocks, work, conf, vb, acc, id, rivals);
    var voiders;
    ghost var states, asks;
    vb', acc', checks, ok, voiders, states, asks := CheckVoiders(d, f, blocks, work, conf, vb, acc, conf[id], inherited);
    course := Course(voiders, states, asks, vb', {});
    if !ok {
      return;
    }
    ghost var vb1 := vb';
    var more;
    vb', acc', more := MarkVoidedRivals(d, f, blocks, work, conf, vb', acc', rivals);
    LonersKeptTwice(conf, vb, vb1, vb');
    ghost var marked := vb';
    vb', acc', more, ok := CheckOwn(d, f, blocks, work, conf, vb', acc', id);
    LonersKeptTwice(conf, vb, marked, vb');
    SameContest(f, blocks, work, conf, vb1, marked, id);
    checks, course := checks + more, Course(voiders, states, asks, marked, more);
    if ok {
      FollowsNow(d, f, blocks, work, conf, vb, vb1, vb', id, inherited, rivals, course);
    } else if conf[id] == {} {
      NoRivals(f, blocks, work, conf, marked, id);
    }
  }

  lemma RivalsReady(d: Dag, f: Dag, blocks: set<Id>, work: map<Id, nat>, conf: Conflicts, vb: VoidedBy, acc: map<Id, nat>, id: Id, rivals: seq<Id>)
    requires id in conf && Ready(d, f, blocks, work, conf, vb, acc, conf[id]) && Elements(rivals) == conf[id]
    ensures forall c :: c in Elements(rivals) ==> c in conf && conf[c] != {}
  {
    hide Ready;
    ReadyParts(d, f, blocks, work, conf, vb, acc, conf[id]);
    RivalsHaveRivals(conf, id, rivals);
  }

  /** Checks the transactions that void a newcomer. */
  method CheckVoiders(d: Dag, f: Dag, blocks: set<Id>, work: map<Id, nat>, conf: Conflicts, vb: VoidedBy, acc: map<Id, nat>,
                      ghost late: set<Id>, inherited: set<Id>)
    returns (vb': VoidedBy, acc': map<Id, nat>, checks: set<Id>, ok: bool, voiders: seq<Id>, ghost states: seq<VoidedBy>, ghost asks: seq<set<Id>>)
    requires Ready(d, f, blocks, work, conf, vb, acc, late) && inherited <= vb.Keys
    ensures Ready(d, f, blocks, work, conf, vb', acc', late) && vb'.Keys == acc'.Keys == vb.Keys && LonersKept(conf, vb, vb')
    ensures Distinct(voiders) && Elements(voiders) == inherited - blocks
    ensures ok ==> CheckedInTurn(d, f, blocks, work, conf, voiders, states, asks) && |states| == |voiders| + 1
    ensures ok ==> states[0] == vb && states[|voiders|] == vb' && checks == All(asks)
    ensures !ok ==> Challenged(f, blocks, work, conf)
    ensures inherited <= blocks ==> ok && vb' == vb
    ensures forall t: Id :: inherited - blocks == {t} ==> (ok <==> !OverturnsIn(f, blocks, work, conf, vb, t))
  {
    hide Ready, OverturnsIn, Challenged, CheckedInTurn, Through, LonersKept, All, Distinct, Elements;
    var others := inherited - blocks;
    assert inherited <= blocks ==> others == {};
    voiders := ListOf(others);
    VoidersListed(others, voiders);
    ghost var n;
    vb', acc', checks, ok, n, states, asks := CheckAll(d, f, blocks, work, conf, vb, acc, late, voiders);
    ThroughAll(d, f, blocks, work, conf, voiders, n, vb, vb', checks, states, asks);
  }

  lemma FollowsNow(d: Dag, f: Dag, blocks: set<Id>, work: map<Id, nat>, conf: Conflicts, vb: VoidedBy, vb1: VoidedBy, vb': VoidedBy,
                   id: Id, inherited: set<Id>, rivals: seq<Id>, course: Course)
    requires Distinct(course.voiders) && Elements(course.voiders) == inherited - blocks
    requires CheckedInTurn(d, f, blocks, work, conf, course.voiders, course.states, course.asks) && course.states[0] == vb
    requires course.states[|course.voiders|] == vb1 && SameStanding(vb1, course.marked) && id in conf && Elements(rivals) == conf[id]
    requires d.Valid() && conf.Keys == vb1.Keys == d.deps.Keys
    requires SelfGrown(d, vb1, course.marked, Marked(d, conf, vb1, VoidedAmong(vb1, Elements(rivals))))
    requires CheckedFreely(d, f, blocks, work, conf, course.marked, vb', id, course.own)
    ensures Follows(d, f, blocks, work, conf, vb, vb', id, inherited, course)
  {
    hide CheckedInTurn, CheckedFreely, SelfGrown, Marked, VoidedAmong, SameStanding;
  }

  /** The conflicts of the newcomer itself. */
  method CheckOwn(d: Dag, f: Dag, blocks: set<Id>, work: map<Id, nat>, conf: Conflicts, vb: VoidedBy, acc: map<Id, nat>, id: Id)
    returns (vb': VoidedBy, acc': map<Id, nat>, checks: set<Id>, ok: bool)
    requires Ready(d, f, blocks, work, conf, vb, acc, {}) && id in conf
    ensures Ready(d, f, blocks, work, conf, vb', acc', {}) && vb'.Keys == acc'.Keys == vb.Keys && LonersKept(conf, vb, vb')
    ensures ok <==> !OverturnsIn(f, blocks, work, conf, vb, id)
    ensures ok ==> ResolvedIn(f, work, conf, vb', id) && CheckedFreely(d, f, blocks, work, conf, vb, vb', id, checks)
    ensures !ok ==> Challenged(f, blocks, work, conf)
  {
    hide Ready, OverturnsIn, Challenged, Checked, Exact, LonersKept, VoidanceKept, Anchored, Dag.Valid, Weights, Symmetric;
    ReadyParts(d, f, blocks, work, conf, vb, acc, {});
    LonersKeptNow(conf, vb);
    vb', acc', checks, ok := vb, acc, {}, true;
    if vb[id] == {id} {
      vb', acc', checks, ok := CheckConflicts(d, f, blocks, work, conf, vb, acc, {}, id);
      if !ok {
        OverturnsChallenged(d, f, blocks, work, conf, vb, acc, {}, id);
      }
    } else {
      NoContest(f, blocks, work, conf, vb, id);
      ResolvedOtherwise(Weights(f, work), conf, vb, id);
      NotUp(d, f, work, conf, vb, id);
    }
  }

  lemma NotUp(d: Dag, f: Dag, work: map<Id, nat>, conf: Conflicts, vb: VoidedBy, t: Id)
    requires d.Valid() && f.Valid() && work.Keys == conf.Keys == vb.Keys == d.deps.Keys == f.deps.Keys && t in conf && Exact(d, vb)
    requires vb[t] != {t} && Weights(f, work).Keys == conf.Keys
    ensures Checked(d, f, work, conf, vb, vb, t, {})
  {
    hide Exact, Weights, Dag.Valid, Loses;
  }

  /** A single voider is a list of one. */
  lemma VoidersListed(s: set<Id>, list: seq<Id>)
    requires Elements(list) == s && Distinct(list)
    ensures s == {} ==> |list| == 0
    ensures forall t :: s == {t} ==> list == [t]
  {
    ElementsCount(list);
    if |list| == 1 {
      assert list[0] in s;
    }
  }

  lemma {:induction false} ElementsCount(list: seq<Id>)
    requires Distinct(list)
    ensures |Elements(list)| == |list|
  {
    if list == [] {
      assert Elements(list) == {};
    } else {
      var n := |list| - 1;
      ElementsCount(list[..n]);
      assert Elements(list) == Elements(list[..n]) + {list[n]};
    }
  }

  lemma ThroughAll(d: Dag, f: Dag, blocks: set<Id>, work: map<Id, nat>, conf: Conflicts, list: seq<Id>, n: nat,
                   vb: VoidedBy, vb': VoidedBy, checks: set<Id>, states: seq<VoidedBy>, asks: seq<set<Id>>)
    requires Through(d, f, blocks, work, conf, list, n, vb, vb', checks, states, asks)
    ensures n == 0 ==> vb' == vb
    ensures n == |list| ==> |states| == |list| + 1 && states[0] == vb && states[|list|] == vb' && checks == All(asks)
    ensures n == |list| ==> CheckedInTurn(d, f, blocks, work, conf, list, states, asks)
    ensures n == |list| == 1 ==> !OverturnsIn(f, blocks, work, conf, vb, list[0])
  {
    hide Checked, OverturnsIn;
    assert list[..|list|] == list;
    if n == |list| == 1 {
      assert CheckedFreely(d, f, blocks, work, conf, states[0], states[1], list[0], asks[0]);
    }
  }

  // ----- what the checks decide -----

  /** What `t`, up for a contest in `vb` and not outweighed, comes to: it executes, or stays voided on a
  tie, and every rival of it carries its own hash. */
  ghost predicate Decided(f: Dag, work: map<Id, nat>, conf: Conflicts, vb: VoidedBy, vb': VoidedBy, t: Id) {
    && f.Valid() && work.Keys == f.deps.Keys == conf.Keys == vb.Keys == vb'.Keys && t in conf
    && (Beats(Weights(f, work), conf, vb, t) ==>
          && vb'[t] == (if Ties(Weights(f, work), conf, vb, t) then {t} else {})
          && forall c :: c in conf[t] ==> c in vb' && c in vb'[c])
  }

  /** A check changes nothing in the past of the transaction it is about. */
  lemma PastStays(d: Dag, f: Dag, blocks: set<Id>, work: map<Id, nat>, conf: Conflicts, vb: VoidedBy, vb': VoidedBy, t: Id, asked: set<Id>, x: Id)
    requires Checked(d, f, work, conf, vb, vb', t, asked) && BareOf(d, f, blocks) && Symmetric(conf) && Exact(d, vb)
    requires (forall v :: v in work ==> work[v] > 0) && x in vb && x != t && d.Reaches(x, t)
    ensures vb'[x] == vb[x]
  {
    hide Weights, BareOf, Loses, Ties, AsksFor, Freed, Dag.Reaches, Dag.Valid;
    WeightsKeys(f, work);
    if Beats(Weights(f, work), conf, vb, t) {
      forall c | c in conf[t] ensures !d.Reaches(c, t) {
        NoRivalIsAncestor(d, f, blocks, work, conf, vb, t, c);
      }
      forall h ensures h in vb'[x] <==> h in vb[x] {
        SamePast(d, conf, vb, vb', t, x, h);
      }
    }
  }

  lemma SamePast(d: Dag, conf: Conflicts, vb: VoidedBy, vb': VoidedBy, t: Id, x: Id, h: Id)
    requires d.Valid() && conf.Keys == vb.Keys == vb'.Keys == d.deps.Keys && t in conf && Exact(d, vb) && Exact(d, vb')
    requires forall y :: y in vb && y != t ==> (y in vb'[y] <==> y in vb[y] || y in Marked(d, conf, vb, conf[t]))
    requires (forall c :: c in conf[t] ==> !d.Reaches(c, t)) && x in vb && x != t && d.Reaches(x, t)
    ensures h in vb'[x] <==> h in vb[x]
  {
    if h in vb && d.Reaches(h, x) {
      ReachesTimestamp(d, h, x);
      ReachesTimestamp(d, x, t);
      if h in Marked(d, conf, vb, conf[t]) {
        var c :| c in conf[t] && c in vb && c !in vb[c] && d.Reaches(c, h);
        ReachesTransitive(d, c, h, x);
        ReachesTransitive(d, c, x, t);
      }
    }
  }

  /** A rival that is an ancestor is never beaten. */
  lemma NotOverAncestor(d: Dag, f: Dag, blocks: set<Id>, work: map<Id, nat>, conf: Conflicts, vb: VoidedBy, t: Id, c: Id)
    requires BareOf(d, f, blocks) && work.Keys == conf.Keys == vb.Keys == d.deps.Keys == f.deps.Keys && Symmetric(conf) && Exact(d, vb)
    requires (forall x :: x in work ==> work[x] > 0) && t in vb && c in conf[t] && d.Reaches(c, t)
    ensures !Beats(Weights(f, work), conf, vb, t)
  {
    hide Weights, Loses, Dag.Reaches;
    WeightsKeys(f, work);
    if Beats(Weights(f, work), conf, vb, t) {
      NoRivalIsAncestor(d, f, blocks, work, conf, vb, t, c);
    }
  }

  /** When one transaction alone voids all the newcomer points to, the arrival decides its contest, with
  the work of the newcomer counted. */
  lemma SoleVoiderDecided(d: Dag, f: Dag, blocks: set<Id>, work: map<Id, nat>, conf: Conflicts, vb: VoidedBy, vb': VoidedBy, acc: map<Id, nat>,
                          id: Id, inherited: set<Id>, course: Course, t: Id)
    requires id in conf && Ready(d, f, blocks, work, conf, vb, acc, conf[id]) && Follows(d, f, blocks, work, conf, vb, vb', id, inherited, course)
    requires inherited - blocks == {t} && t in vb && t != id && d.Valid() && id in d.deps && d.Reaches(t, id)
    ensures Decided(f, work, conf, vb, vb', t)
  {
    hide Ready, Weights, Checked, MarkedVoided, BareOf, Anchored, VoidanceKept, Exact, Dag.Reaches, Dag.Valid, Symmetric, Follows, Beats, Ties;
    ReadyParts(d, f, blocks, work, conf, vb, acc, conf[id]);
    AnchoredParts(d, f, blocks, vb);
    SoleCourse(d, f, blocks, work, conf, vb, vb', id, inherited, course, t);
    var after, marked := course.states[1], course.marked;
    MarkedKeeps(d, conf, after, marked, id);
    FirstDecided(d, f, work, conf, vb, after, marked, t, course.asks[0]);
    OwnKeeps(d, f, blocks, work, conf, marked, vb', id, course.own, t);
  }

  /** With a single voider the course is: its check, the marking, the check of the newcomer. */
  lemma SoleCourse(d: Dag, f: Dag, blocks: set<Id>, work: map<Id, nat>, conf: Conflicts, vb: VoidedBy, vb': VoidedBy,
                   id: Id, inherited: set<Id>, course: Course, t: Id)
    requires Follows(d, f, blocks, work, conf, vb, vb', id, inherited, course) && inherited - blocks == {t}
    ensures |course.states| == 2 && |course.asks| == 1 && Checked(d, f, work, conf, vb, course.states[1], t, course.asks[0])
    ensures MarkedVoided(d, conf, course.states[1], course.marked, id) && Checked(d, f, work, conf, course.marked, vb', id, course.own)
  {
    hide Checked, OverturnsIn, MarkedVoided, Distinct, Elements;
    VoidersListed(inherited - blocks, course.voiders);
    assert CheckedFreely(d, f, blocks, work, conf, course.states[0], course.states[1], course.voiders[0], course.asks[0]);
  }

  lemma MarkedKeeps(d: Dag, conf: Conflicts, vb: VoidedBy, vb': VoidedBy, id: Id)
    requires MarkedVoided(d, conf, vb, vb', id)
    ensures d.Valid() && vb'.Keys == vb.Keys && Exact(d, vb') && SameStanding(vb, vb') && forall x :: x in vb && x in vb[x] ==> x in vb'[x]
  {
    hide Exact, Marked, VoidedAmong;
  }

  lemma FirstDecided(d: Dag, f: Dag, work: map<Id, nat>, conf: Conflicts, vb: VoidedBy, after: VoidedBy, marked: VoidedBy, t: Id, asked: set<Id>)
    requires Checked(d, f, work, conf, vb, after, t, asked) && SameStanding(after, marked)
    requires forall x :: x in after && x in after[x] ==> x in marked[x]
    ensures Decided(f, work, conf, vb, marked, t)
  {
    hide Exact, Marked, AsksFor, Freed, Loses, Ties, Weights, Dag.Valid;
    WeightsKeys(f, work);
  }

  /** The check of a newcomer undoes nothing that was decided in its past. */
  lemma OwnKeeps(d: Dag, f: Dag, blocks: set<Id>, work: map<Id, nat>, conf: Conflicts, vb: VoidedBy, vb': VoidedBy, id: Id, asked: set<Id>, t: Id)
    requires Checked(d, f, work, conf, vb, vb', id, asked) && BareOf(d, f, blocks) && Symmetric(conf) && Exact(d, vb)
    requires (forall v :: v in work ==> work[v] > 0) && t in vb && t != id && d.Reaches(t, id)
    ensures vb'.Keys == vb.Keys && vb'[t] == vb[t] && forall c :: c in conf[t] && c in vb && c in vb[c] ==> c in vb'[c]
  {
    PastStays(d, f, blocks, work, conf, vb, vb', id, asked, t);
    hide Weights, BareOf, Loses, Ties, AsksFor, Freed, Marked, Exact, Dag.Reaches, Dag.Valid;
    WeightsKeys(f, work);
    forall c | c in conf[t] && c in vb && c in vb[c] ensures c in vb'[c] {
      if c == id {
        ConflictsBothWays(conf, t, id);
        NotOverAncestor(d, f, blocks, work, conf, vb, id, t);
      }
    }
  }

  lemma ConflictsBothWays(conf: Conflicts, t: Id, c: Id)
    requires Symmetric(conf) && t in conf && c in conf[t]
    ensures c in conf && t in conf[c]
  {
  }
}
