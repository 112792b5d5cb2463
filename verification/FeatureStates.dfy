/** The state of a feature at every height, when two features with one bit can signal together, and
the signal bits of a block. */
module FeatureStates {
  import opened FeatureSettings

  datatype State = Defined | Started | MustSignal | LockedIn | Active | Failed

  predicate Signaling(s: State) {
    s == Started || s == MustSignal || s == LockedIn
  }

  /** The state at the boundary block at `height`; `count` is what the interval before it signaled. */
  function NewState(c: Criteria, E: nat, height: nat, previous: State, count: nat): State {
    match previous
    case Defined => if height >= c.start then Started else Defined
    case Started =>
      if height >= c.timeout && !c.lockInOnTimeout then Failed
      else if height < c.timeout && count >= c.threshold then LockedIn
      else if height + E >= c.timeout && c.lockInOnTimeout then MustSignal
      else Started
    case MustSignal => LockedIn
    case LockedIn => if height >= c.minimumActivation then Active else LockedIn
    case Active => Active
    case Failed => Failed
  }

  /** How many blocks signaled a bit in the interval before a boundary. */
  type Votes = (nat, nat) -> nat

  function BoundaryState(c: Criteria, E: nat, votes: Votes, k: nat): State {
    if k == 0 then Defined else NewState(c, E, k * E, BoundaryState(c, E, votes, k - 1), votes(c.bit, k))
  }

  /** All blocks of an interval have the state of its boundary block. */
  function StateAt(c: Criteria, E: nat, votes: Votes, height: nat): State
    requires E > 0
  {
    BoundaryState(c, E, votes, height / E)
  }

  // ----- how long a feature can signal -----

  function Max(a: int, b: int): int {
    if a < b then b else a
  }

  /** The boundary at which the feature starts; the genesis block never starts one. */
  function First(c: Criteria, E: nat): int
    requires E > 0
  {
    Max(c.start / E, 1)
  }

  /** The last boundary at which it may still signal, whatever the votes. */
  function LastSignal(c: Criteria, E: nat): int
    requires E > 0
  {
    var first, timeout, active := First(c, E), c.timeout / E, c.minimumActivation / E;
    if c.lockInOnTimeout then Max(Max(timeout, first + 2), active - 1)
    else if first + 1 < timeout then Max(timeout - 1, active - 1)
    else timeout - 1
  }

  lemma AtLeast(k: nat, h: nat, E: nat)
    requires E > 0 && h % E == 0
    ensures k * E >= h <==> k >= h / E
    ensures k * E + E >= h <==> k + 1 >= h / E
  {
    assert h == (h / E) * E;
    assert (k + 1) * E == k * E + E;
    MulOrder(k, h / E, E);
    MulOrder(k + 1, h / E, E);
  }

  lemma MulOrder(a: nat, b: nat, E: nat)
    requires E > 0
    ensures a * E >= b * E <==> a >= b
  {
    if a >= b {
      MulAbove(a - b, E);
      assert a * E == b * E + (a - b) * E;
    } else {
      MulAbove(b - a, E);
      assert b * E == a * E + (b - a) * E;
    }
  }

  lemma MulAbove(d: nat, E: nat)
    ensures d > 0 ==> d * E >= E
  {
  }

  /** Where each state can occur, counted in intervals. */
  ghost predicate Placed(c: Criteria, E: nat, k: nat, s: State)
    requires E > 0
  {
    var first, timeout, active := First(c, E), c.timeout / E, c.minimumActivation / E;
    match s
    case Defined => k < first
    case Started => first <= k <= timeout - 1 && (c.lockInOnTimeout ==> k == first || k + 1 < timeout)
    case MustSignal => c.lockInOnTimeout && first < k <= Max(timeout - 1, first + 1)
    case LockedIn => first < k && (if c.lockInOnTimeout then k <= Max(Max(timeout, first + 2), active - 1)
                                   else first + 1 < timeout && k <= Max(timeout - 1, active - 1))
    case Active => first < k
    case Failed => first < k
  }

  /** One boundary, counted in intervals. */
  lemma PlacedStep(c: Criteria, E: nat, k: nat, previous: State, count: nat, maxBits: nat)
    requires ValidCriteria(c, E, maxBits) && k > 0 && Placed(c, E, k - 1, previous)
    ensures Placed(c, E, k, NewState(c, E, k * E, previous, count))
  {
    AtLeast(k, c.start, E);
    AtLeast(k, c.timeout, E);
    AtLeast(k, c.minimumActivation, E);
    TwoIntervals(c, E, maxBits);
  }

  lemma TwoIntervals(c: Criteria, E: nat, maxBits: nat)
    requires ValidCriteria(c, E, maxBits)
    ensures c.start / E + 2 <= c.timeout / E && First(c, E) + 1 <= c.timeout / E
  {
    var s := c.start / E;
    StepsOf(s, E);
    AtLeast(s + 2, c.timeout, E);
    AtLeast(s + 1, c.timeout, E);
  }

  lemma StepsOf(s: nat, E: nat)
    ensures (s + 1) * E == s * E + E && (s + 2) * E == s * E + 2 * E
  {
  }

  lemma {:induction false} StatePlaced(c: Criteria, E: nat, votes: Votes, k: nat, maxBits: nat)
    requires ValidCriteria(c, E, maxBits)
    ensures Placed(c, E, k, BoundaryState(c, E, votes, k))
  {
    if k > 0 {
      StatePlaced(c, E, votes, k - 1, maxBits);
      PlacedStep(c, E, k, BoundaryState(c, E, votes, k - 1), votes(c.bit, k), maxBits);
    }
  }

  /** A feature signals only from its start to its last signal. */
  lemma SignalsWithin(c: Criteria, E: nat, votes: Votes, k: nat, maxBits: nat)
    requires ValidCriteria(c, E, maxBits) && Signaling(BoundaryState(c, E, votes, k))
    ensures First(c, E) <= k <= LastSignal(c, E)
  {
    StatePlaced(c, E, votes, k, maxBits);
    TwoIntervals(c, E, maxBits);
  }

  // ----- what the votes decide -----

  /** Some interval that counts, after the start and up to boundary `k`, reached the threshold. */
  ghost predicate ReachedThreshold(c: Criteria, E: nat, votes: Votes, k: nat)
    requires E > 0
  {
    exists j: nat :: First(c, E) < j <= k && votes(c.bit, j) >= c.threshold
  }

  lemma {:induction false} DefinedBefore(c: Criteria, E: nat, votes: Votes, k: nat, maxBits: nat)
    requires ValidCriteria(c, E, maxBits) && k < First(c, E)
    ensures BoundaryState(c, E, votes, k) == Defined
  {
    if k > 0 {
      DefinedBefore(c, E, votes, k - 1, maxBits);
      AtLeast(k, c.start, E);
    }
  }

  lemma {:induction false} VotesDecide(c: Criteria, E: nat, votes: Votes, k: nat, maxBits: nat)
    requires ValidCriteria(c, E, maxBits) && !c.lockInOnTimeout && First(c, E) <= k < c.timeout / E
    ensures var s := BoundaryState(c, E, votes, k); if ReachedThreshold(c, E, votes, k) then s == LockedIn || s == Active else s == Started
  {
    AtLeast(k, c.timeout, E);
    if k == First(c, E) {
      DefinedBefore(c, E, votes, k - 1, maxBits);
      AtLeast(k, c.start, E);
    } else {
      VotesDecide(c, E, votes, k - 1, maxBits);
      assert ReachedThreshold(c, E, votes, k) <==> ReachedThreshold(c, E, votes, k - 1) || votes(c.bit, k) >= c.threshold by {
        if ReachedThreshold(c, E, votes, k - 1) {
          var j: nat :| First(c, E) < j <= k - 1 && votes(c.bit, j) >= c.threshold;
          assert j <= k;
        }
      }
    }
  }

  /** A feature that does not lock in by itself fails at its timeout if and only if no interval before
  it reached the threshold. */
  lemma FailsExactly(c: Criteria, E: nat, votes: Votes, maxBits: nat)
    requires ValidCriteria(c, E, maxBits) && !c.lockInOnTimeout
    ensures c.timeout / E > 0 && (BoundaryState(c, E, votes, c.timeout / E) == Failed <==> !ReachedThreshold(c, E, votes, c.timeout / E - 1))
  {
    var last := c.timeout / E;
    TwoIntervals(c, E, maxBits);
    AtLeast(last, c.timeout, E);
    VotesDecide(c, E, votes, last - 1, maxBits);
  }

  // ----- the run in which every block signals -----

  function EveryBlock(E: nat): Votes {
    (bit, k) => E
  }

  ghost predicate Unanimous(c: Criteria, E: nat, k: nat, s: State)
    requires E > 0
  {
    var first, timeout, active := First(c, E), c.timeout / E, c.minimumActivation / E;
    var locks := if first + 1 < timeout then first + 1 else first + 2;
    && (k < first ==> s == Defined)
    && (k == first ==> s == Started)
    && (first < k < locks ==> s == if c.lockInOnTimeout then MustSignal else Failed)
    && ((c.lockInOnTimeout || first + 1 < timeout) && locks <= k <= Max(locks, active - 1) ==> s == LockedIn)
    && ((c.lockInOnTimeout || first + 1 < timeout) && k > Max(locks, active - 1) ==> s == Active)
  }

  lemma {:induction false} UnanimousRun(c: Criteria, E: nat, k: nat, maxBits: nat)
    requires ValidCriteria(c, E, maxBits)
    ensures Unanimous(c, E, k, BoundaryState(c, E, EveryBlock(E), k))
  {
    TwoIntervals(c, E, maxBits);
    if k > 0 {
      UnanimousRun(c, E, k - 1, maxBits);
      AtLeast(k, c.start, E);
      AtLeast(k, c.timeout, E);
      AtLeast(k, c.minimumActivation, E);
    }
  }

  // ----- when one bit is enough for two features -----

  ghost predicate ValidSettings(features: Features, E: nat, maxBits: nat) {
    E > 0 && ConflictFree(features) && forall f :: f in features ==> ValidCriteria(features[f], E, maxBits)
  }

  /** No two features with one bit ever signal at one height. */
  ghost predicate BitsNeverShared(features: Features, E: nat)
    requires E > 0
  {
    forall votes: Votes, k: nat, f, g ::
      SharedBit(features, f, g) && Signaling(BoundaryState(features[f], E, votes, k)) ==> !Signaling(BoundaryState(features[g], E, votes, k))
  }

  ghost predicate SharedBit(features: Features, f: Feature, g: Feature) {
    f in features && g in features && f != g && features[f].bit == features[g].bit
  }

  /** Each feature is done signaling when the next one with its bit starts. */
  ghost predicate DoneBeforeNext(features: Features, E: nat)
    requires E > 0
  {
    forall f, g :: SharedBit(features, f, g) && features[f].timeout < features[g].start ==> LastSignal(features[f], E) < features[g].start / E
  }

  lemma LaterStart(a: nat, b: nat, E: nat)
    requires E > 0 && a % E == 0 && b % E == 0 && a < b
    ensures a / E < b / E
  {
    AtLeast(a / E, b, E);
  }

  lemma NotBoth(features: Features, E: nat, maxBits: nat, votes: Votes, k: nat, f: Feature, g: Feature)
    requires ValidSettings(features, E, maxBits) && DoneBeforeNext(features, E) && SharedBit(features, f, g)
    requires Signaling(BoundaryState(features[f], E, votes, k))
    ensures !Signaling(BoundaryState(features[g], E, votes, k))
  {
    SignalsWithin(features[f], E, votes, k, maxBits);
    if Signaling(BoundaryState(features[g], E, votes, k)) {
      SignalsWithin(features[g], E, votes, k, maxBits);
      assert Apart(IntervalOf(f, features[f]), IntervalOf(g, features[g]));
      assert SharedBit(features, g, f);
    }
  }

  lemma BothSignal(features: Features, E: nat, maxBits: nat, f: Feature, g: Feature)
    requires ValidSettings(features, E, maxBits) && SharedBit(features, f, g) && features[f].timeout < features[g].start
    requires LastSignal(features[f], E) >= features[g].start / E
    ensures var k: nat := features[g].start / E;
            && Signaling(BoundaryState(features[f], E, EveryBlock(E), k)) && Signaling(BoundaryState(features[g], E, EveryBlock(E), k))
  {
    var k := features[g].start / E;
    LaterStart(features[f].timeout, features[g].start, E);
    TwoIntervals(features[f], E, maxBits);
    UnanimousRun(features[f], E, k, maxBits);
    UnanimousRun(features[g], E, k, maxBits);
  }

  /** Settings that pass the check keep the bits of signaling features distinct exactly when each
  feature is also done signaling, locked in or not, before the next one with its bit starts. */
  lemma DistinctBitsExactly(features: Features, E: nat, maxBits: nat)
    requires ValidSettings(features, E, maxBits)
    ensures BitsNeverShared(features, E) <==> DoneBeforeNext(features, E)
  {
    hide BoundaryState, LastSignal;
    if DoneBeforeNext(features, E) {
      forall votes: Votes, k: nat, f, g | SharedBit(features, f, g) && Signaling(BoundaryState(features[f], E, votes, k))
        ensures !Signaling(BoundaryState(features[g], E, votes, k))
      {
        NotBoth(features, E, maxBits, votes, k, f, g);
      }
    } else {
      var f, g :| SharedBit(features, f, g) && features[f].timeout < features[g].start && LastSignal(features[f], E) >= features[g].start / E;
      BothSignal(features, E, maxBits, f, g);
    }
  }

  /** A feature that activates late keeps its bit: the check accepts these two, and both signal at 16. */
  lemma LateActivationShares()
    ensures var features: Features := map[0 := Criteria(0, 4, 12, 40, false, 4), 1 := Criteria(0, 16, 24, 0, false, 4)];
            && ValidSettings(features, 4, 4)
            && Signaling(StateAt(features[0], 4, EveryBlock(4), 16)) && Signaling(StateAt(features[1], 4, EveryBlock(4), 16))
  {
    var features: Features := map[0 := Criteria(0, 4, 12, 40, false, 4), 1 := Criteria(0, 16, 24, 0, false, 4)];
    assert ValidSettings(features, 4, 4);
    BothSignal(features, 4, 4, 0, 1);
  }
}
