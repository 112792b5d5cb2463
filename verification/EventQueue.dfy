/** The event queue: ids, groups and what restarts do to them. */
module EventQueue {
  import opened Wrappers

  datatype Kind = ReorgStarted | ReorgFinished | Other(kind: nat)

  datatype Event = Event(id: nat, kind: Kind, group: Option<nat>)

  // ----- what a log of events must look like -----

  function Last(log: seq<Event>): Option<Event> {
    if log == [] then None else Some(log[|log| - 1])
  }

  /** The number of groups opened so far. */
  function Groups(log: seq<Event>): nat {
    if log == [] then 0 else Groups(log[..|log| - 1]) + if log[|log| - 1].kind == ReorgStarted then 1 else 0
  }

  /** The group that is open at the end. */
  function Open(log: seq<Event>): Option<nat> {
    if log == [] then None
    else match log[|log| - 1].kind
      case ReorgStarted => Some(Groups(log[..|log| - 1]))
      case ReorgFinished => None
      case Other(_) => Open(log[..|log| - 1])
  }

  /** An event of kind `k` may follow. */
  predicate May(log: seq<Event>, k: Kind) {
    && (k == ReorgStarted ==> Open(log) == None)
    && (k == ReorgFinished ==> Open(log) != None)
  }

  /** The event that follows: the next id, a fresh group for a start, otherwise the open group. */
  function Next(log: seq<Event>, k: Kind): Event {
    Event(|log|, k, if k == ReorgStarted then Some(Groups(log)) else Open(log))
  }

  ghost predicate WellFormed(log: seq<Event>) {
    log != [] ==>
      var before := log[..|log| - 1];
      WellFormed(before) && May(before, log[|log| - 1].kind) && log[|log| - 1] == Next(before, log[|log| - 1].kind)
  }

  lemma Extended(log: seq<Event>, k: Kind)
    requires WellFormed(log) && May(log, k)
    ensures WellFormed(log + [Next(log, k)]) && Last(log + [Next(log, k)]) == Some(Next(log, k))
    ensures Groups(log + [Next(log, k)]) == Groups(log) + if k == ReorgStarted then 1 else 0
    ensures Open(log + [Next(log, k)]) ==
            match k case ReorgStarted => Some(Groups(log)) case ReorgFinished => None case Other(_) => Open(log)
  {
    assert (log + [Next(log, k)])[..|log|] == log;
  }

  // ----- what well-formed logs promise -----

  lemma {:induction false} IdsConsecutive(log: seq<Event>, i: nat)
    requires WellFormed(log) && i < |log|
    ensures log[i].id == i
  {
    if i < |log| - 1 {
      IdsConsecutive(log[..|log| - 1], i);
    }
  }

  /** The last event alone tells whether a group is open, and which. */
  lemma {:induction false} OpenFromLast(log: seq<Event>)
    requires WellFormed(log)
    ensures Open(log) == if log == [] || log[|log| - 1].kind == ReorgFinished then None else log[|log| - 1].group
    ensures Open(log) != None ==> Open(log) == Some(Groups(log) - 1)
  {
    if log != [] {
      OpenFromLast(log[..|log| - 1]);
    }
  }

  lemma {:induction false} GroupBound(log: seq<Event>, i: nat)
    requires WellFormed(log) && i < |log|
    ensures log[i].group.Some? ==> log[i].group.value < Groups(log)
  {
    OpenFromLast(log[..|log| - 1]);
    if i < |log| - 1 {
      GroupBound(log[..|log| - 1], i);
    }
  }

  /** Every group has its opening event. */
  lemma {:induction false} GroupHasStart(log: seq<Event>, g: nat) returns (i: nat)
    requires WellFormed(log) && g < Groups(log)
    ensures i < |log| && log[i].kind == ReorgStarted && log[i].group == Some(g)
  {
    var n := |log| - 1;
    if log[n].kind == ReorgStarted && g == Groups(log[..n]) {
      i := n;
    } else {
      i := GroupHasStart(log[..n], g);
    }
  }

  /** An event belongs to the group of the event before it, unless it opens one or that one closed it. */
  lemma {:induction false} GroupStep(log: seq<Event>, i: nat)
    requires WellFormed(log) && i < |log|
    ensures log[i].kind == ReorgStarted ==> log[i].group.Some? && (i == 0 || log[i - 1].group == None || log[i - 1].kind == ReorgFinished)
    ensures log[i].kind != ReorgStarted ==> log[i].group == if i == 0 || log[i - 1].kind == ReorgFinished then None else log[i - 1].group
    ensures log[i].kind == ReorgFinished ==> log[i].group.Some?
    decreases |log|
  {
    var n := |log| - 1;
    if i < n {
      GroupStep(log[..n], i);
    } else {
      OpenFromLast(log[..n]);
      assert i > 0 ==> log[..n][n - 1] == log[i - 1];
    }
  }

  /** No event of a group comes before its opening event. */
  lemma {:induction false} StartIsFirst(log: seq<Event>, i: nat, j: nat)
    requires WellFormed(log) && j < i < |log| && log[i].kind == ReorgStarted
    ensures log[j].group != log[i].group
  {
    var n := |log| - 1;
    if i < n {
      StartIsFirst(log[..n], i, j);
    } else {
      GroupBound(log[..n], j);
    }
  }

  /** A group is one contiguous segment. */
  lemma {:induction false} GroupContiguous(log: seq<Event>, i: nat, j: nat, k: nat)
    requires WellFormed(log) && i <= j <= k < |log| && log[i].group.Some? && log[k].group == log[i].group
    ensures log[j].group == log[i].group
    ensures j < k ==> log[j].kind != ReorgFinished
    ensures i < j ==> log[j].kind != ReorgStarted
    decreases k
  {
    if i < k {
      GroupStep(log, k);
      if log[k].kind == ReorgStarted {
        StartIsFirst(log, k, i);
      }
      if j < k {
        GroupContiguous(log, i, j, k - 1);
      }
    }
  }

  // ----- the manager -----

  datatype NodeState = Load | Sync

  /** A node that never finished loading generates its events again. */
  predicate MustReload(state: Option<NodeState>) {
    state == None || state.value == Load
  }

  class EventManager {
    // the storage
    var saved: seq<Event>
    var storedLast: Option<Event>
    var storedGroup: Option<nat>
    var nodeState: Option<NodeState>
    // the manager
    var running: bool
    var previousState: Option<NodeState>
    var lastEvent: Option<Event>
    var lastGroup: Option<nat>

    ghost predicate Synced()
      reads this
    {
      lastEvent == storedLast && lastGroup == storedGroup
    }

    /** The saved events are well formed, and a running manager agrees with the storage or was started
    with a stale last event over a storage that was just emptied. */
    ghost predicate Inv()
      reads this
    {
      && WellFormed(saved) && storedLast == Last(saved)
      && storedGroup == (if Groups(saved) == 0 then None else Some(Groups(saved) - 1))
      && (running ==> Synced() || (saved == [] && lastEvent.Some?))
      && (lastEvent == None ==> lastGroup == None)
    }

    constructor ()
      ensures Inv() && saved == [] && !running && lastEvent == None
    {
      saved, storedLast, storedGroup, nodeState := [], None, None, None;
      running, previousState, lastEvent, lastGroup := false, None, None, None;
    }

    predicate GroupIsClosed()
      reads this
    {
      lastEvent == None || lastEvent.value.group == None || lastEvent.value.kind == ReorgFinished
    }

    /** The group of an event that neither opens nor closes one. */
    function Continuing(): Option<nat>
      reads this
    {
      if GroupIsClosed() then None else lastEvent.value.group
    }

    lemma ClosedMeansNotOpen()
      requires Inv() && Synced()
      ensures GroupIsClosed() <==> Open(saved) == None
      ensures !GroupIsClosed() ==> lastEvent.value.group == Open(saved)
    {
      OpenFromLast(saved);
    }

    /** The process ends; a new manager is made over the same storage. */
    method Restart()
      requires Inv()
      modifies this
      ensures Inv() && !running && lastEvent == None && saved == old(saved) && nodeState == old(nodeState)
    {
      running, previousState, lastEvent, lastGroup := false, None, None, None;
    }

    /** A node that never finished loading starts over with no events.  Refused, in the middle of an
    update, when the last run left a group open. */
    method Start() returns (ok: bool)
      requires Inv() && !running
      modifies this
      ensures Inv() && nodeState == old(nodeState) && running == ok
      ensures previousState == nodeState && saved == if MustReload(nodeState) then [] else old(saved)
      ensures !MustReload(nodeState) ==> (ok <==> Open(saved) == None) && (ok ==> Synced())
      ensures MustReload(nodeState) ==> (ok <==> old(GroupIsClosed()))
      ensures ok ==> (Synced() <==> !MustReload(nodeState) || old(lastEvent) == None)
      ensures MustReload(nodeState) ==> lastEvent == old(lastEvent)
    {
      previousState := nodeState;
      if MustReload(previousState) {
        saved, storedLast, storedGroup := [], None, None;
      } else {
        lastEvent, lastGroup := storedLast, storedGroup;
        ClosedMeansNotOpen();
      }
      ok := GroupIsClosed();
      running := ok;
    }

    method Stop()
      requires Inv() && running
      modifies this`running
      ensures Inv() && !running
    {
      running := false;
    }

    /** Group id of the next event; false where the source asserts. */
    method Group(k: Kind) returns (group: Option<nat>, ok: bool)
      requires Inv() && running
      modifies this`lastGroup
      ensures old(Synced()) ==> (ok <==> May(saved, k))
      ensures old(Synced()) && ok ==> group == Next(saved, k).group
      ensures lastGroup == if k == ReorgStarted && ok then group else old(lastGroup)
    {
      if Synced() {
        ClosedMeansNotOpen();
      }
      group, ok := None, true;
      if k == ReorgStarted {
        ok := GroupIsClosed();
        if ok {
          group := Some(if lastGroup == None then 0 else lastGroup.value + 1);
          lastGroup := group;
        }
      } else if k == ReorgFinished {
        ok := lastEvent != None && !GroupIsClosed();
        if ok {
          group := lastEvent.value.group;
        }
      } else {
        group := Continuing();
      }
    }

    function NextId(): nat
      reads this
    {
      if lastEvent == None then 0 else lastEvent.value.id + 1
    }

    /** The storage takes an event only with the next id. */
    method Save(e: Event) returns (ok: bool)
      modifies this`saved, this`storedLast, this`storedGroup
      ensures ok <==> e.id == if old(storedLast) == None then 0 else old(storedLast).value.id + 1
      ensures ok ==> saved == old(saved) + [e] && storedLast == Some(e) && storedGroup == if e.group == None then old(storedGroup) else e.group
      ensures !ok ==> saved == old(saved) && storedLast == old(storedLast) && storedGroup == old(storedGroup)
    {
      ok := e.id == if storedLast == None then 0 else storedLast.value.id + 1;
      if ok {
        saved, storedLast := saved + [e], Some(e);
        if e.group != None {
          storedGroup := e.group;
        }
      }
    }

    lemma NextIdIsLength()
      requires Inv() && Synced()
      ensures NextId() == |saved|
    {
      if saved != [] {
        IdsConsecutive(saved, |saved| - 1);
      }
    }

    /** One event.  It is saved exactly when the groups allow it and the manager is not stale, and
    the log stays well formed either way. */
    method HandleEvent(k: Kind) returns (ok: bool)
      requires Inv() && running
      modifies this
      ensures Inv() && running && nodeState == old(nodeState) && previousState == old(previousState)
      ensures ok <==> old(Synced()) && May(old(saved), k)
      ensures saved == if ok then old(saved) + [Next(old(saved), k)] else old(saved)
      ensures old(Synced()) && ok ==> Synced()
      ensures !old(Synced()) ==> !ok && !Synced()
    {
      ghost var was := saved;
      if Synced() {
        NextIdIsLength();
      }
      var group;
      group, ok := Group(k);
      if ok {
        var e := Event(NextId(), k, group);
        ok := Save(e);
        if ok {
          lastEvent := Some(e);
          Extended(was, k);
          OpenFromLast(was);
        }
      }
    }
  
    /** `load_started` and `load_finished`: an event, then the new node state.  Nothing happens before
    the manager is started. */
    method ChangeNodeState(k: nat, state: NodeState) returns (ok: bool)
      requires Inv()
      modifies this
      ensures Inv() && running == old(running) && previousState == old(previousState)
      ensures ok <==> !running || old(Synced())
      ensures running && ok ==> Synced() && saved == old(saved) + [Next(old(saved), Other(k))] && nodeState == Some(state)
      ensures !running || !ok ==> saved == old(saved) && nodeState == old(nodeState)
    {
      ok := true;
      if running {
        ok := HandleEvent(Other(k));
        if ok {
          nodeState := Some(state);
        }
      }
    }

    /** A manager that is stopped while loading and started again empties the storage but keeps its
    last event: from then on every event is refused, whatever its kind. */
    method StartTwiceWhileLoading(load: nat, kinds: seq<Kind>) returns (accepted: nat)
      requires Inv() && !running && lastEvent == None && MustReload(nodeState)
      modifies this
      ensures Inv() && running && !Synced() && accepted == 0 && saved == []
    {
      var ok := Start();
      ok := ChangeNodeState(load, Load);
      assert saved == [Next([], Other(load))];
      Stop();
      ok := Start();
      accepted := 0;
      for i := 0 to |kinds|
        invariant Inv() && running && !Synced() && accepted == 0 && saved == []
      {
        ok := HandleEvent(kinds[i]);
        accepted := accepted + if ok then 1 else 0;
      }
    }

    /** The events of one consensus update, in the order they are published.  From a closed group
    they are all accepted, as one group for a reorg, and the group is closed again. */
    method ConsensusUpdate(reorg: bool, updates: seq<Kind>) returns (ok: bool)
      requires Inv() && running && Synced() && Open(saved) == None && forall k :: k in updates ==> k.Other?
      modifies this
      ensures Inv() && running && Synced() && ok && Open(saved) == None && nodeState == old(nodeState)
      ensures saved == Emit(old(saved), UpdateKinds(reorg, updates))
      ensures |saved| == |old(saved)| + |updates| + (if reorg then 2 else 0) && old(saved) == saved[..|old(saved)|]
      ensures reorg ==> saved[|old(saved)|].kind == ReorgStarted && saved[|saved| - 1].kind == ReorgFinished
      ensures forall i :: 0 <= i < |updates| ==> saved[|old(saved)| + i + (if reorg then 1 else 0)].kind == updates[i]
      ensures forall i :: |old(saved)| <= i < |saved| ==> saved[i].group == if reorg then Some(Groups(old(saved))) else None
    {
      hide WellFormed, Open, Groups, Emit, Next, Last;
      ghost var was := saved;
      var kinds := UpdateKinds(reorg, updates);
      EmitNothing(was);
      ok := true;
      var i := 0;
      while i < |kinds|
        invariant 0 <= i <= |kinds| && Inv() && running && Synced() && ok && nodeState == old(nodeState)
        invariant saved == Emit(was, kinds[..i])
        invariant Updated(was, saved, kinds, reorg, i)
      {
        EmitStep(was, kinds, i);
        KindAt(reorg, updates, i);
        ghost var before := saved;
        ok := HandleEvent(kinds[i]);
        Extended(before, kinds[i]);
        UpdatedNext(was, before, saved, kinds, reorg, i);
        i := i + 1;
      }
      assert kinds[..i] == kinds;
      UpdateShape(reorg, updates);
    }

    /** The events of the vertices in the database, written in batches of `size`. */
    method LoadVertices(count: nat, size: nat, vertex: nat) returns (ok: bool)
      requires Inv() && running && Synced() && Open(saved) == None && size > 0
      modifies this
      ensures Inv() && running && Synced() && ok && Open(saved) == None && nodeState == old(nodeState)
      ensures saved == if MustReload(previousState) then Emit(old(saved), seq(count, _ => Other(vertex))) else old(saved)
    {
      ok := true;
      if !MustReload(previousState) {
        return;
      }
      hide WellFormed, Open, Groups, Emit, Next, Last, Loading;
      ghost var was, kinds := saved, seq(count, _ => Other(vertex));
      var batch: seq<Event> := [];
      EmitNothing(was);
      LoadingStart();
      var i := 0;
      while i < count
        invariant 0 <= i <= count && ok && nodeState == old(nodeState) && previousState == old(previousState) && running
        invariant saved + batch == Emit(was, kinds[..i]) && Loading(batch)
      {
        EmitStep(was, kinds, i);
        batch := LoadOne(batch, vertex);
        if |batch| == size {
          ok := SaveAll(batch);
          batch := [];
        }
        i := i + 1;
      }
      assert kinds[..i] == kinds;
      ok := SaveAll(batch);
      LoadingDone();
    }

    lemma LoadingStart()
      requires Inv() && Synced() && Open(saved) == None
      ensures Loading([]) && saved + [] == saved
    {
      assert saved + [] == saved;
    }

    lemma LoadingDone()
      requires Loading([]) && running
      ensures Inv() && Synced() && Open(saved) == None
    {
      assert saved + [] == saved;
    }

    /** Creates the event of one vertex; it is not written yet. */
    method LoadOne(batch: seq<Event>, vertex: nat) returns (batch': seq<Event>)
      requires Loading(batch)
      modifies this`lastEvent
      ensures Loading(batch') && saved + batch' == saved + batch + [Next(saved + batch, Other(vertex))]
    {
      LoadingNext(batch, vertex);
      var e := Event(NextId(), Other(vertex), Continuing());
      Extended(saved + batch, Other(vertex));
      batch', lastEvent := batch + [e], Some(e);
      assert saved + batch' == saved + batch + [e];
    }

    /** The storage is behind the manager by the events of the batch. */
    ghost predicate Loading(batch: seq<Event>)
      reads this
    {
      && WellFormed(saved + batch) && Open(saved + batch) == None && WellFormed(saved) && Open(saved) == None
      && storedLast == Last(saved) && lastEvent == Last(saved + batch) && lastGroup == storedGroup
      && storedGroup == (if Groups(saved) == 0 then None else Some(Groups(saved) - 1))
      && (forall e :: e in batch ==> e.kind.Other?)
      && (lastEvent == None ==> lastGroup == None)
    }

    lemma LoadingNext(batch: seq<Event>, vertex: nat)
      requires Loading(batch)
      ensures Event(NextId(), Other(vertex), Continuing()) == Next(saved + batch, Other(vertex))
    {
      OpenFromLast(saved + batch);
      if saved + batch != [] {
        IdsConsecutive(saved + batch, |saved + batch| - 1);
      }
    }

    method SaveAll(batch: seq<Event>) returns (ok: bool)
      requires Loading(batch)
      modifies this`saved, this`storedLast, this`storedGroup
      ensures ok && Loading([]) && saved == old(saved) + batch && saved + [] == saved
    {
      hide WellFormed, Open, Groups, Last, Loading;
      ok := true;
      var j := 0;
      assert batch[0..] == batch;
      while j < |batch|
        invariant 0 <= j <= |batch| && ok && saved == old(saved) + batch[..j] && Loading(batch[j..])
      {
        assert batch[j..][1..] == batch[j + 1..];
        var fine := SaveFirst(batch[j..]);
        ok, j := ok && fine, j + 1;
      }
      assert batch[j..] == [] && batch[..j] == batch && saved + [] == saved;
    }

    method SaveFirst(batch: seq<Event>) returns (ok: bool)
      requires Loading(batch) && batch != []
      modifies this`saved, this`storedLast, this`storedGroup
      ensures ok && Loading(batch[1..]) && saved == old(saved) + [batch[0]]
    {
      NextStored(batch);
      ghost var before := saved;
      Extended(before, batch[0].kind);
      ok := Save(batch[0]);
      assert saved + batch[1..] == before + batch;
    }

    lemma NextStored(batch: seq<Event>)
      requires Loading(batch) && batch != []
      ensures batch[0] == Next(saved, batch[0].kind) && batch[0].group == None
      ensures batch[0].id == if storedLast == None then 0 else storedLast.value.id + 1
    {
      PrefixNext(saved + batch, |saved|);
      assert (saved + batch)[..|saved|] == saved;
      if saved != [] {
        IdsConsecutive(saved, |saved| - 1);
      }
    }
  }

  lemma {:induction false} PrefixNext(log: seq<Event>, i: nat)
    requires WellFormed(log) && i < |log|
    ensures log[i] == Next(log[..i], log[i].kind)
  {
    if i < |log| - 1 {
      PrefixNext(log[..|log| - 1], i);
      assert log[..|log| - 1][..i] == log[..i];
    }
  }

  function UpdateKinds(reorg: bool, updates: seq<Kind>): seq<Kind> {
    if reorg then [ReorgStarted] + updates + [ReorgFinished] else updates
  }

  /** The first `i` events of an update: their kinds, and one group for a reorg, open until its end. */
  ghost predicate Updated(was: seq<Event>, now: seq<Event>, kinds: seq<Kind>, reorg: bool, i: nat) {
    && i <= |kinds| && |now| == |was| + i && now[..|was|] == was
    && Open(now) == (if reorg && 0 < i < |kinds| then Some(Groups(was)) else None)
    && forall k :: |was| <= k < |now| ==> now[k].kind == kinds[k - |was|] && now[k].group == if reorg then Some(Groups(was)) else None
  }

  lemma UpdatedNext(was: seq<Event>, before: seq<Event>, now: seq<Event>, kinds: seq<Kind>, reorg: bool, i: nat)
    requires i < |kinds| && Updated(was, before, kinds, reorg, i) && now == before + [Next(before, kinds[i])]
    requires kinds[i] == ReorgStarted <==> reorg && i == 0
    requires kinds[i] == ReorgFinished <==> reorg && i == |kinds| - 1
    requires reorg ==> |kinds| >= 2
    requires Open(now) == match kinds[i] case ReorgStarted => Some(Groups(before)) case ReorgFinished => None case Other(_) => Open(before)
    ensures Updated(was, now, kinds, reorg, i + 1)
  {
    hide Open, Groups;
    assert now[..|was|] == before[..|was|];
    if i == 0 {
      assert before == before[..|was|] == was;
    }
    assert Open(now) == if reorg && i + 1 < |kinds| then Some(Groups(was)) else None by {
      match kinds[i]
      case ReorgStarted =>
      case ReorgFinished =>
      case Other(_) =>
    }
    forall k | |was| <= k < |now| ensures now[k].kind == kinds[k - |was|] && now[k].group == if reorg then Some(Groups(was)) else None {
      if k < |before| {
        assert now[k] == before[k];
      } else {
        assert now[k] == Next(before, kinds[i]);
      }
    }
  }

  lemma UpdateShape(reorg: bool, updates: seq<Kind>)
    ensures var kinds, at := UpdateKinds(reorg, updates), if reorg then 1 else 0;
            && |kinds| == |updates| + 2 * at && (forall i :: 0 <= i < |updates| ==> kinds[i + at] == updates[i])
            && (reorg ==> kinds[0] == ReorgStarted && kinds[|kinds| - 1] == ReorgFinished)
  {
  }

  lemma KindAt(reorg: bool, updates: seq<Kind>, i: nat)
    requires i < |UpdateKinds(reorg, updates)| && forall k :: k in updates ==> k.Other?
    ensures var kinds := UpdateKinds(reorg, updates);
            && (kinds[i] == ReorgStarted <==> reorg && i == 0)
            && (kinds[i] == ReorgFinished <==> reorg && i == |kinds| - 1)
            && (reorg ==> |kinds| >= 2)
  {
    if (reorg ==> 0 < i < |updates| + 1) {
      assert UpdateKinds(reorg, updates)[i] in updates;
    }
  }

  /** The log after events of the given kinds. */
  ghost function Emit(log: seq<Event>, kinds: seq<Kind>): seq<Event> {
    if kinds == [] then log
    else
      var before := Emit(log, kinds[..|kinds| - 1]);
      before + [Next(before, kinds[|kinds| - 1])]
  }

  lemma EmitNothing(log: seq<Event>)
    ensures Emit(log, []) == log
  {
  }

  lemma EmitStep(log: seq<Event>, kinds: seq<Kind>, i: nat)
    requires i < |kinds|
    ensures Emit(log, kinds[..i + 1]) == Emit(log, kinds[..i]) + [Next(Emit(log, kinds[..i]), kinds[i])]
  {
    assert kinds[..i + 1][..i] == kinds[..i];
  }
}
