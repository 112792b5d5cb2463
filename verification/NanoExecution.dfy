/** Executing the nano contract calls of one block: what status and what voidance each call ends with. */
module NanoExecution {
  import opened Wrappers
  import opened Graph
  import opened Traversal
  import opened Ledger
  import opened Voidance

  type State(!new, ==)

  datatype Status = Success | Failure | Skipped

  /** What a runner does with a call; a failed run leaves no state. */
  datatype Outcome = Done(state: State) | Failed

  /** The runner for the `k`-th call: its seed is a function of the calls before it. */
  type Runner = (nat, State, Id) -> Outcome

  /** No call comes before a call it spends from, among those that are not voided beforehand. */
  ghost predicate Sorted(f: Dag, vb: VoidedBy, calls: seq<Id>)
    requires f.Valid() && vb.Keys == f.deps.Keys && Elements(calls) <= vb.Keys
  {
    forall i, j :: 0 <= i < j < |calls| && vb[Call(calls, i)] == {} && vb[Call(calls, j)] == {} ==> !f.Reaches(Call(calls, j), Call(calls, i))
  }

  function Call(calls: seq<Id>, i: nat): (c: Id)
    requires i < |calls|
    ensures c in calls
  {
    calls[i]
  }

  /** The shapes of `voided_by` that must hold after a block is executed; `failed` carry the marker. */
  ghost predicate Shape(vb: VoidedBy, failed: set<Id>, status: map<Id, Status>, c: Id)
    requires c in vb && c in status
  {
    match status[c]
    case Success => vb[c] == {} && c !in failed
    case Failure => vb[c] == {c} && c in failed
    case Skipped => vb[c] != {} && c !in failed
  }

  /** A failed call other than `c` that `c` spends from, directly or not. */
  ghost predicate FailedLeft(f: Dag, failed: set<Id>, c: Id)
    requires f.Valid() && c in f.deps
  {
    exists t :: t in failed && t != c && f.Reaches(t, c)
  }

  /** The state after the first `n` calls: failed calls change nothing. */
  ghost function StateAfter(calls: seq<Id>, status: map<Id, Status>, run: Runner, skip: (State, Id) -> State, state: State, n: nat): State
    requires n <= |calls| && forall k :: 0 <= k < n ==> calls[k] in status
  {
    if n == 0 then state
    else
      var before := StateAfter(calls, status, run, skip, state, n - 1);
      match status[calls[n - 1]]
      case Success => if run(n - 1, before, calls[n - 1]).Done? then run(n - 1, before, calls[n - 1]).state else before
      case Failure => before
      case Skipped => skip(before, calls[n - 1])
  }

  /** A call that was run has the status its runner gave it. */
  ghost predicate Ran(calls: seq<Id>, status: map<Id, Status>, run: Runner, skip: (State, Id) -> State, state: State, n: nat)
    requires n < |calls| && forall k :: 0 <= k <= n ==> calls[k] in status
  {
    var outcome := run(n, StateAfter(calls, status, run, skip, state, n), calls[n]);
    match status[calls[n]]
    case Success => outcome.Done?
    case Failure => outcome.Failed?
    case Skipped => true
  }

  lemma RanStays(calls: seq<Id>, status: map<Id, Status>, status': map<Id, Status>, run: Runner, skip: (State, Id) -> State, state: State, n: nat)
    requires n < |calls| && forall k :: 0 <= k <= n ==> calls[k] in status && calls[k] in status' && status[calls[k]] == status'[calls[k]]
    requires Ran(calls, status, run, skip, state, n)
    ensures Ran(calls, status', run, skip, state, n)
  {
    StateAfterSame(calls, status, status', run, skip, state, n);
  }

  lemma {:induction false} StateAfterSame(calls: seq<Id>, status: map<Id, Status>, status': map<Id, Status>, run: Runner, skip: (State, Id) -> State,
                                          state: State, n: nat)
    requires n <= |calls| && forall k :: 0 <= k < n ==> calls[k] in status && calls[k] in status' && status[calls[k]] == status'[calls[k]]
    ensures StateAfter(calls, status, run, skip, state, n) == StateAfter(calls, status', run, skip, state, n)
  {
    if n > 0 {
      StateAfterSame(calls, status, status', run, skip, state, n - 1);
    }
  }

  /** Who failed decides who is voided, and whose only hash is its own. */
  ghost predicate ProgressAt(f: Dag, vb0: VoidedBy, vb: VoidedBy, failed: set<Id>, x: Id)
    requires f.Valid() && x in f.deps && x in vb0 && x in vb
  {
    && (vb[x] == {} <==> vb0[x] == {} && x !in failed && !FailedLeft(f, failed, x))
    && (x in failed ==> vb0[x] == {} && x in vb[x] && (vb[x] == {x} <==> !FailedLeft(f, failed, x)))
  }

  ghost predicate Progress(f: Dag, vb0: VoidedBy, vb: VoidedBy, failed: set<Id>)
    requires f.Valid()
  {
    && vb0.Keys == vb.Keys == f.deps.Keys && OwnFirst(vb)
    && (forall x :: x in vb ==> ProgressAt(f, vb0, vb, failed, x))
  }

  /** The status of each executed call says what happened at its turn. */
  ghost predicate Turn(f: Dag, vb0: VoidedBy, calls: seq<Id>, failed: set<Id>, status: map<Id, Status>, k: nat)
    requires f.Valid() && k < |calls| && Elements(calls) <= f.deps.Keys == vb0.Keys
  {
    && calls[k] in status && (status[calls[k]] == Failure <==> calls[k] in failed)
    && (status[calls[k]] == Skipped <==> vb0[calls[k]] != {} || FailedBefore(f, calls, failed, k))
  }

  ghost predicate FailedBefore(f: Dag, calls: seq<Id>, failed: set<Id>, k: nat)
    requires f.Valid() && k < |calls| && Elements(calls) <= f.deps.Keys
  {
    exists m :: 0 <= m < k && Call(calls, m) in failed && f.Reaches(Call(calls, m), Call(calls, k))
  }

  // ----- the block as a function -----

  datatype Result = Result(state: State, failed: set<Id>)

  /** What running the first `n` calls comes to, from the calls that were voided beforehand alone: a
  call is skipped when it was voided or spends from a call that failed. */
  ghost function Folded(f: Dag, vb: VoidedBy, calls: seq<Id>, run: Runner, skip: (State, Id) -> State, state: State, n: nat): Result
    requires f.Valid() && n <= |calls| && Elements(calls) <= f.deps.Keys == vb.Keys
  {
    if n == 0 then Result(state, {})
    else
      var before, c := Folded(f, vb, calls, run, skip, state, n - 1), Call(calls, n - 1);
      if Held(f, vb, before.failed, c) then Result(skip(before.state, c), before.failed)
      else
        match run(n - 1, before.state, c)
        case Done(after) => Result(after, before.failed)
        case Failed => Result(before.state, before.failed + {c})
  }

  ghost predicate Held(f: Dag, vb: VoidedBy, failed: set<Id>, c: Id)
    requires f.Valid() && c in f.deps && c in vb
  {
    vb[c] != {} || exists t :: t in failed && f.Reaches(t, c)
  }

  /** Whoever keeps the turns and the runs arrives at this result. */
  lemma {:induction false} FoldedIs(f: Dag, vb: VoidedBy, calls: seq<Id>, failed: set<Id>, status: map<Id, Status>, run: Runner,
                                    skip: (State, Id) -> State, state: State, n: nat)
    requires f.Valid() && n <= |calls| && Elements(calls) <= f.deps.Keys == vb.Keys && Distinct(calls)
    requires forall k :: 0 <= k < |calls| ==> calls[k] in status
    requires forall k :: 0 <= k < |calls| ==> Turn(f, vb, calls, failed, status, k)
    requires forall k :: 0 <= k < n ==> Ran(calls, status, run, skip, state, k)
    ensures Folded(f, vb, calls, run, skip, state, n).state == StateAfter(calls, status, run, skip, state, n)
    ensures forall t :: t in Folded(f, vb, calls, run, skip, state, n).failed <==> t in failed && t in calls[..n]
  {
    hide Dag.Reaches, Dag.Valid;
    if n > 0 {
      FoldedIs(f, vb, calls, failed, status, run, skip, state, n - 1);
      var before := Folded(f, vb, calls, run, skip, state, n - 1);
      assert Turn(f, vb, calls, failed, status, n - 1) && Ran(calls, status, run, skip, state, n - 1);
      HeldIsSkipped(f, vb, calls, failed, before.failed, n - 1);
      assert calls[..n] == calls[..n - 1] + [calls[n - 1]];
      assert calls[n - 1] !in calls[..n - 1];
    }
  }

  lemma HeldIsSkipped(f: Dag, vb: VoidedBy, calls: seq<Id>, failed: set<Id>, before: set<Id>, k: nat)
    requires f.Valid() && k < |calls| && Elements(calls) <= f.deps.Keys == vb.Keys
    requires forall t :: t in before <==> t in failed && t in calls[..k]
    ensures calls[k] in Elements(calls) && (Held(f, vb, before, calls[k]) <==> vb[calls[k]] != {} || FailedBefore(f, calls, failed, k))
  {
    hide Dag.Reaches, Dag.Valid;
    var c := calls[k];
    assert c in Elements(calls);
    if t :| t in before && f.Reaches(t, c) {
      var m :| 0 <= m < k && calls[m] == t;
      assert Call(calls, m) in failed;
    }
    if FailedBefore(f, calls, failed, k) {
      var m :| 0 <= m < k && Call(calls, m) in failed && f.Reaches(Call(calls, m), Call(calls, k));
      assert Call(calls, m) in before;
    }
  }

  // ----- one failing call -----

  lemma PushLeavesOthers(f: Dag, conf: map<Id, set<Id>>, vb: VoidedBy, vb': VoidedBy, t: Id, x: Id)
    requires f.Valid() && conf.Keys == vb.Keys == f.deps.Keys && t in vb && x in vb && Pushed(f, vb, vb', f.Desc(t), t, MustVoid(f, conf, vb, t, t))
    ensures !f.Reaches(t, x) ==> vb'[x] == vb[x]
    ensures f.Reaches(t, x) ==> t in vb'[x]
    ensures vb[x] <= vb'[x]
    ensures vb[t] == {} ==> vb'[t] == {t}
  {
    hide Dag.Reaches, Dag.Valid;
    forall g | g in MustVoid(f, conf, vb, t, t) && f.Reaches(g, x) ensures f.Reaches(t, x) {
      ReachesTransitive(f, t, g, x);
    }
    assert f.Reaches(t, t) by { ReachesSelf(f, t); }
    forall g | g in vb'[t] && vb[t] == {} ensures g == t {
      if g in MustVoid(f, conf, vb, t, t) && f.Reaches(g, t) {
        ReachesTimestamp(f, g, t);
        ReachesTimestamp(f, t, g);
      }
    }
  }

  lemma ReachesSelf(f: Dag, t: Id)
    requires f.Valid() && t in f.deps
    ensures f.Reaches(t, t)
  {
  }

  lemma FailedLeftAfter(f: Dag, failed: set<Id>, t: Id, x: Id)
    requires f.Valid() && x in f.deps
    ensures FailedLeft(f, failed + {t}, x) <==> FailedLeft(f, failed, x) || (t != x && f.Reaches(t, x))
  {
    hide Dag.Reaches, Dag.Valid;
    if FailedLeft(f, failed, x) {
      var g :| g in failed && g != x && f.Reaches(g, x);
      assert g in failed + {t};
    }
    if t != x && f.Reaches(t, x) {
      assert t in failed + {t};
    }
  }

  /** Its hash goes to everything that spends from it. */
  lemma ProgressFail(f: Dag, conf: map<Id, set<Id>>, vb0: VoidedBy, vb: VoidedBy, vb': VoidedBy, failed: set<Id>, t: Id)
    requires f.Valid() && conf.Keys == vb.Keys && Progress(f, vb0, vb, failed) && t in vb && vb[t] == {}
    requires Pushed(f, vb, vb', f.Desc(t), t, MustVoid(f, conf, vb, t, t))
    ensures Progress(f, vb0, vb', failed + {t})
  {
    hide Dag.Reaches, Dag.Valid, FailedLeft;
    ReachesSelf(f, t);
    PushedOwnFirst(f, vb, vb', f.Desc(t), t, MustVoid(f, conf, vb, t, t));
    forall x | x in vb' ensures ProgressAt(f, vb0, vb', failed + {t}, x) {
      assert ProgressAt(f, vb0, vb, failed, x);
      ProgressFailAt(f, conf, vb0, vb, vb', failed, t, x);
    }
  }

  lemma ProgressFailAt(f: Dag, conf: map<Id, set<Id>>, vb0: VoidedBy, vb: VoidedBy, vb': VoidedBy, failed: set<Id>, t: Id, x: Id)
    requires f.Valid() && conf.Keys == vb.Keys == vb'.Keys == f.deps.Keys && t in vb && vb[t] == {} && t in vb0 && x in vb0 && x in vb
    requires Pushed(f, vb, vb', f.Desc(t), t, MustVoid(f, conf, vb, t, t))
    requires ProgressAt(f, vb0, vb, failed, x)
    ensures ProgressAt(f, vb0, vb', failed + {t}, x)
  {
    hide Dag.Reaches, Dag.Valid, FailedLeft, Pushed, MustVoid;
    PushLeavesOthers(f, conf, vb, vb', t, x);
    FailedLeftAfter(f, failed, t, x);
    ReachesSelf(f, x);
  }

  // ----- all calls of a block -----

  /** What the loop keeps after `n` calls. */
  ghost predicate Executed(f: Dag, vb0: VoidedBy, vb: VoidedBy, calls: seq<Id>, failed: set<Id>, status: map<Id, Status>, n: nat)
    requires f.Valid() && n <= |calls| && Elements(calls) <= f.deps.Keys == vb0.Keys
  {
    && Progress(f, vb0, vb, failed)
    && (forall c :: c in failed ==> c in calls[..n])
    && (forall k :: 0 <= k < n ==> Turn(f, vb0, calls, failed, status, k))
  }

  /** At its turn a call is voided exactly when it was voided before or spends from an earlier failure. */
  lemma VoidedAtTurn(f: Dag, vb0: VoidedBy, vb: VoidedBy, calls: seq<Id>, failed: set<Id>, status: map<Id, Status>, n: nat)
    requires f.Valid() && n < |calls| && Elements(calls) <= f.deps.Keys == vb0.Keys && Distinct(calls)
    requires Executed(f, vb0, vb, calls, failed, status, n)
    ensures calls[n] in vb && calls[n] !in failed
    ensures vb[calls[n]] != {} <==> vb0[calls[n]] != {} || FailedBefore(f, calls, failed, n)
  {
    hide Dag.Reaches, Dag.Valid, Turn;
    var c := calls[n];
    assert c in Elements(calls);
    assert ProgressAt(f, vb0, vb, failed, c);
    if FailedLeft(f, failed, c) {
      var t :| t in failed && t != c && f.Reaches(t, c);
      var m :| 0 <= m < n && calls[m] == t;
      assert Call(calls, m) in failed;
    }
  }

  /** Earlier turns do not change when a later call fails. */
  lemma TurnsStay(f: Dag, vb0: VoidedBy, calls: seq<Id>, failed: set<Id>, failed': set<Id>, status: map<Id, Status>, s: Status, n: nat, k: nat)
    requires f.Valid() && k < n < |calls| && Elements(calls) <= f.deps.Keys == vb0.Keys && Distinct(calls)
    requires failed <= failed' <= failed + {calls[n]} && Turn(f, vb0, calls, failed, status, k)
    ensures Turn(f, vb0, calls, failed', status[calls[n] := s], k)
  {
    hide Dag.Reaches, Dag.Valid;
    assert calls[k] != calls[n];
    assert forall m :: 0 <= m < k ==> (Call(calls, m) in failed' <==> Call(calls, m) in failed);
  }

  lemma NextTurn(f: Dag, vb0: VoidedBy, vb: VoidedBy, vb': VoidedBy, calls: seq<Id>, failed: set<Id>, failed': set<Id>, status: map<Id, Status>, s: Status, n: nat)
    requires f.Valid() && n < |calls| && Elements(calls) <= f.deps.Keys == vb0.Keys && Distinct(calls)
    requires Executed(f, vb0, vb, calls, failed, status, n) && Progress(f, vb0, vb', failed')
    requires failed' == (if s == Failure then failed + {calls[n]} else failed) && calls[n] !in failed
    requires s == Skipped <==> vb0[calls[n]] != {} || FailedBefore(f, calls, failed, n)
    ensures Executed(f, vb0, vb', calls, failed', status[calls[n] := s], n + 1)
  {
    hide Dag.Reaches, Dag.Valid, Progress, Turn;
    var status' := status[calls[n] := s];
    forall k | 0 <= k < n + 1 ensures Turn(f, vb0, calls, failed', status', k) {
      if k < n {
        TurnsStay(f, vb0, calls, failed, failed', status, s, n, k);
      } else {
        ThisTurn(f, vb0, calls, failed, failed', status, s, n);
      }
    }
  }

  lemma ThisTurn(f: Dag, vb0: VoidedBy, calls: seq<Id>, failed: set<Id>, failed': set<Id>, status: map<Id, Status>, s: Status, n: nat)
    requires f.Valid() && n < |calls| && Elements(calls) <= f.deps.Keys == vb0.Keys && Distinct(calls)
    requires failed' == (if s == Failure then failed + {calls[n]} else failed) && calls[n] !in failed
    requires s == Skipped <==> vb0[calls[n]] != {} || FailedBefore(f, calls, failed, n)
    ensures Turn(f, vb0, calls, failed', status[calls[n] := s], n)
  {
    hide Dag.Reaches, Dag.Valid;
    assert forall m :: 0 <= m < n ==> (Call(calls, m) in failed' <==> Call(calls, m) in failed);
  }

  lemma ShapeOf(f: Dag, vb0: VoidedBy, vb: VoidedBy, calls: seq<Id>, failed: set<Id>, status: map<Id, Status>, k: nat)
    requires f.Valid() && k < |calls| && Elements(calls) <= f.deps.Keys == vb0.Keys && Executed(f, vb0, vb, calls, failed, status, |calls|)
    ensures calls[k] in status && calls[k] in vb
    ensures Shape(vb, failed, status, calls[k]) <==> status[calls[k]] == Skipped || !FailedLeft(f, failed, calls[k])
  {
    hide Dag.Reaches, Dag.Valid;
    var c := calls[k];
    assert c in Elements(calls);
    assert ProgressAt(f, vb0, vb, failed, c);
    assert Turn(f, vb0, calls, failed, status, k);
    if FailedBefore(f, calls, failed, k) {
      var m :| 0 <= m < k && Call(calls, m) in failed && f.Reaches(Call(calls, m), Call(calls, k));
      assert c in failed || FailedLeft(f, failed, c);
    }
  }

  /** In a sorted list whatever fails has all its dependent calls still to come. */
  lemma SortedUndoesNone(f: Dag, vb0: VoidedBy, vb: VoidedBy, calls: seq<Id>, failed: set<Id>, status: map<Id, Status>, k: nat)
    requires f.Valid() && k < |calls| && Elements(calls) <= f.deps.Keys == vb0.Keys && Executed(f, vb0, vb, calls, failed, status, |calls|)
    requires Sorted(f, vb0, calls) && FailedLeft(f, failed, calls[k])
    ensures calls[k] in status && status[calls[k]] == Skipped
  {
    hide Dag.Reaches, Dag.Valid;
    var c := calls[k];
    assert Turn(f, vb0, calls, failed, status, k);
    var t :| t in failed && t != c && f.Reaches(t, c);
    var m :| 0 <= m < |calls| && calls[m] == t;
    assert ProgressAt(f, vb0, vb, failed, t);
    assert Call(calls, m) in failed && f.Reaches(Call(calls, m), Call(calls, k));
  }

  /** Runs the calls of a block in the given order.  With a sorted order every call ends with its
  shape, whatever the runner does. */
  method ExecuteCalls(f: Dag, conf: map<Id, set<Id>>, vb: VoidedBy, calls: seq<Id>, run: Runner, skip: (State, Id) -> State, state: State)
    returns (vb': VoidedBy, failed: set<Id>, status: map<Id, Status>, state': State)
    requires f.Valid() && conf.Keys == vb.Keys == f.deps.Keys && OwnFirst(vb) && Elements(calls) <= vb.Keys && Distinct(calls)
    ensures Executed(f, vb, vb', calls, failed, status, |calls|)
    ensures forall k :: 0 <= k < |calls| ==> calls[k] in status && calls[k] in vb'
    ensures (forall k :: 0 <= k < |calls| ==> Shape(vb', failed, status, calls[k])) <==>
            (forall k :: 0 <= k < |calls| ==> status[calls[k]] == Skipped || !FailedLeft(f, failed, calls[k]))
    ensures Sorted(f, vb, calls) ==> forall k :: 0 <= k < |calls| ==> Shape(vb', failed, status, calls[k])
    ensures state' == StateAfter(calls, status, run, skip, state, |calls|)
    ensures forall k :: 0 <= k < |calls| ==> Ran(calls, status, run, skip, state, k)
    ensures Folded(f, vb, calls, run, skip, state, |calls|) == Result(state', failed)
  {
    hide Dag.Reaches, Dag.Valid, Executed, Progress, Pushed, MustVoid, Turn, Shape, FailedLeft, FailedBefore, Sorted, OwnFirst, Folded;
    vb', failed, status, state' := vb, {}, map[], state;
    NothingExecuted(f, vb, calls, status);
    var i := 0;
    while i < |calls|
      invariant 0 <= i <= |calls| && Executed(f, vb, vb', calls, failed, status, i)
      invariant forall k :: 0 <= k < i ==> calls[k] in status
      invariant state' == StateAfter(calls, status, run, skip, state, i)
      invariant forall k :: 0 <= k < i ==> Ran(calls, status, run, skip, state, k)
    {
      var c := calls[i];
      assert c in Elements(calls);
      VoidedAtTurn(f, vb, vb', calls, failed, status, i);
      ExecutedParts(f, vb, vb', calls, failed, status, i);
      ghost var status0, failed0, vb0 := status, failed, vb';
      var outcome := run(i, state', c);
      if vb'[c] != {} {
        status, state' := status[c := Skipped], skip(state', c);
        NextTurn(f, vb, vb', vb', calls, failed, failed, status0, Skipped, i);
      } else if outcome.Failed? {
        failed := failed + {c};
        var checks, ok;
        NeverCarried(f, vb', c);
        vb', checks, ok := AddVoidedBy(f, conf, vb', c, c);
        status := status[c := Failure];
        ProgressFail(f, conf, vb, vb0, vb', failed0, c);
        NextTurn(f, vb, vb0, vb', calls, failed0, failed, status0, Failure, i);
      } else {
        status, state' := status[c := Success], outcome.state;
        NextTurn(f, vb, vb', vb', calls, failed, failed, status0, Success, i);
      }
      StateAfterSame(calls, status0, status, run, skip, state, i);
      forall k | 0 <= k < i ensures Ran(calls, status, run, skip, state, k) {
        RanStays(calls, status0, status, run, skip, state, k);
      }
      i := i + 1;
    }
    forall k | 0 <= k < |calls|
      ensures calls[k] in status && calls[k] in vb'
      ensures Shape(vb', failed, status, calls[k]) <==> status[calls[k]] == Skipped || !FailedLeft(f, failed, calls[k])
    {
      ShapeOf(f, vb, vb', calls, failed, status, k);
    }
    ResultIs(f, vb, vb', calls, failed, status, run, skip, state);
    if Sorted(f, vb, calls) {
      forall k | 0 <= k < |calls| && FailedLeft(f, failed, calls[k]) ensures status[calls[k]] == Skipped {
        SortedUndoesNone(f, vb, vb', calls, failed, status, k);
      }
    }
  }

  lemma ResultIs(f: Dag, vb: VoidedBy, vb': VoidedBy, calls: seq<Id>, failed: set<Id>, status: map<Id, Status>, run: Runner,
                 skip: (State, Id) -> State, state: State)
    requires f.Valid() && Elements(calls) <= f.deps.Keys == vb.Keys && Distinct(calls) && Executed(f, vb, vb', calls, failed, status, |calls|)
    requires forall k :: 0 <= k < |calls| ==> calls[k] in status
    requires forall k :: 0 <= k < |calls| ==> Ran(calls, status, run, skip, state, k)
    ensures Folded(f, vb, calls, run, skip, state, |calls|) == Result(StateAfter(calls, status, run, skip, state, |calls|), failed)
  {
    hide Dag.Reaches, Dag.Valid, Progress, Turn, Ran;
    FoldedIs(f, vb, calls, failed, status, run, skip, state, |calls|);
    assert calls[..|calls|] == calls;
  }

  lemma NothingExecuted(f: Dag, vb: VoidedBy, calls: seq<Id>, status: map<Id, Status>)
    requires f.Valid() && Elements(calls) <= f.deps.Keys == vb.Keys && OwnFirst(vb)
    ensures Executed(f, vb, vb, calls, {}, status, 0)
  {
  }

  lemma ExecutedParts(f: Dag, vb0: VoidedBy, vb: VoidedBy, calls: seq<Id>, failed: set<Id>, status: map<Id, Status>, n: nat)
    requires f.Valid() && n <= |calls| && Elements(calls) <= f.deps.Keys == vb0.Keys && Executed(f, vb0, vb, calls, failed, status, n)
    ensures Progress(f, vb0, vb, failed) && OwnFirst(vb) && vb.Keys == f.deps.Keys
  {
  }

  lemma NeverCarried(f: Dag, vb: VoidedBy, c: Id)
    requires f.Valid() && vb.Keys == f.deps.Keys && OwnFirst(vb) && c in vb && vb[c] == {}
    ensures forall x :: x in f.Desc(c) ==> c !in vb[x]
  {
  }

  /** An order that is not sorted has a runner that breaks a shape: the later call fails after one
  that spends from it was run. */
  method UnsortedBreaksShape(f: Dag, conf: map<Id, set<Id>>, vb: VoidedBy, calls: seq<Id>, i: nat, j: nat, skip: (State, Id) -> State, state: State)
    returns (run: Runner, vb': VoidedBy, failed: set<Id>, status: map<Id, Status>, state': State)
    requires f.Valid() && conf.Keys == vb.Keys == f.deps.Keys && OwnFirst(vb) && Elements(calls) <= vb.Keys && Distinct(calls)
    requires i < j < |calls| && calls[i] in vb && calls[j] in vb && vb[calls[i]] == {} && vb[calls[j]] == {} && f.Reaches(calls[j], calls[i])
    ensures Executed(f, vb, vb', calls, failed, status, |calls|)
    ensures calls[i] in status && calls[i] in vb' && !Shape(vb', failed, status, calls[i])
  {
    hide Dag.Reaches, Dag.Valid, Executed, Progress, Turn, Shape, FailedLeft, FailedBefore, Sorted, OwnFirst, StateAfter;
    var late := calls[j];
    run := (k, s, t) => if t == late then Failed else Done(s);
    vb', failed, status, state' := ExecuteCalls(f, conf, vb, calls, run, skip, state);
    forall k | 0 <= k < |calls| ensures status[calls[k]] == Success ==> calls[k] != late
      ensures status[calls[k]] == Failure ==> calls[k] == late
    {
      assert Ran(calls, status, run, skip, state, k);
    }
    LateFailure(f, vb, vb', calls, failed, status, i, j);
    ShapeOf(f, vb, vb', calls, failed, status, i);
  }

  lemma LateFailure(f: Dag, vb0: VoidedBy, vb: VoidedBy, calls: seq<Id>, failed: set<Id>, status: map<Id, Status>, i: nat, j: nat)
    requires f.Valid() && Elements(calls) <= f.deps.Keys == vb0.Keys && Distinct(calls) && Executed(f, vb0, vb, calls, failed, status, |calls|)
    requires i < j < |calls| && calls[i] in vb0 && calls[j] in vb0 && vb0[calls[i]] == {} && vb0[calls[j]] == {} && f.Reaches(calls[j], calls[i])
    requires forall k :: 0 <= k < |calls| ==> calls[k] in status
    requires status[calls[j]] != Success && forall k :: 0 <= k < |calls| ==> (status[calls[k]] == Failure ==> calls[k] == calls[j])
    ensures status[calls[i]] != Skipped && FailedLeft(f, failed, calls[i])
  {
    hide Dag.Reaches, Dag.Valid, Progress;
    assert Turn(f, vb0, calls, failed, status, i) && Turn(f, vb0, calls, failed, status, j);
    forall m | 0 <= m < j ensures Call(calls, m) !in failed {
      assert Turn(f, vb0, calls, failed, status, m);
    }
  }
}
